/**
 The wire format: 16-byte headers, bodies that are NUL-separated lists of strings, and the buffer they
 are built in, which keeps the domain's own path in front of the body.
 */
module Wires {

  import opened Bytes

  // Xen's io/xs_wire.h
  const HEADER_SIZE := 16
  const PAYLOAD_MAX := 4096
  const XS_WATCH_EVENT: uint32 := 15
  const XS_ERROR: uint32 := 16

  const DOM_PATH_MAX := 35
  const NUL: byte := '\0'
  /** err2str(E2BIG) */
  const TOO_BIG: seq<byte> := ['E', '2', 'B', 'I', 'G']

  datatype Header = Header(kind: uint32, reqId: uint32, txId: uint32, len: uint32)

  /** What is sent: the strings of the body, and whether the last one is terminated as well. */
  datatype Message = Message(kind: uint32, reqId: uint32, txId: uint32, body: seq<seq<byte>>, terminator: bool)

  /** What is received. */
  datatype Frame = Frame(hdr: seq<byte>, body: seq<byte>)

  function HeaderBytes(h: Header): (s: seq<byte>)
    ensures |s| == HEADER_SIZE
  {
    WordBytes(h.kind) + WordBytes(h.reqId) + WordBytes(h.txId) + WordBytes(h.len)
  }

  function HeaderOf(s: seq<byte>): Header
    requires |s| == HEADER_SIZE
  {
    Header(Word(s[..4]), Word(s[4..8]), Word(s[8..12]), Word(s[12..]))
  }

  lemma HeaderRoundTrip(h: Header)
    ensures HeaderOf(HeaderBytes(h)) == h
  {
    hide Word, WordBytes;
    var s := HeaderBytes(h);
    assert s[..4] == WordBytes(h.kind) && s[4..8] == WordBytes(h.reqId);
    assert s[8..12] == WordBytes(h.txId) && s[12..] == WordBytes(h.len);
    WordOfBytes(h.kind);
    WordOfBytes(h.reqId);
    WordOfBytes(h.txId);
    WordOfBytes(h.len);
  }

  /** Where the fields are: four 32-bit words, each with its low byte first. */
  lemma HeaderLayout(s: seq<byte>)
    requires |s| == 16
    ensures var h := HeaderOf(s);
      && h.kind == s[0] as int + 256 * s[1] as int + 65536 * s[2] as int + 16777216 * s[3] as int
      && h.reqId == s[4] as int + 256 * s[5] as int + 65536 * s[6] as int + 16777216 * s[7] as int
      && h.txId == s[8] as int + 256 * s[9] as int + 65536 * s[10] as int + 16777216 * s[11] as int
      && h.len == s[12] as int + 256 * s[13] as int + 65536 * s[14] as int + 16777216 * s[15] as int
  {
  }

  /** Every string followed by a NUL. */
  function Joined(elems: seq<seq<byte>>): seq<byte> {
    if elems == [] then [] else Joined(elems[..|elems| - 1]) + elems[|elems| - 1] + [NUL]
  }

  function Packed(elems: seq<seq<byte>>, terminator: bool): seq<byte> {
    if elems == [] then if terminator then [NUL] else []
    else if terminator then Joined(elems) else Joined(elems)[..|Joined(elems)| - 1]
  }

  lemma {:induction false} JoinedPrefix(elems: seq<seq<byte>>, n: nat)
    requires n <= |elems|
    ensures |Joined(elems[..n])| <= |Joined(elems)|
    decreases |elems| - n
  {
    if n < |elems| {
      JoinedPrefix(elems, n + 1);
      JoinedOneMore(elems, n);
    } else {
      assert elems[..n] == elems;
    }
  }

  lemma JoinedOneMore(elems: seq<seq<byte>>, n: nat)
    requires n < |elems|
    ensures Joined(elems[..n + 1]) == Joined(elems[..n]) + elems[n] + [NUL]
  {
    assert elems[..n + 1][..n] == elems[..n];
  }

  lemma EmptyJoined(elems: seq<seq<byte>>)
    ensures Joined(elems[..0]) == []
  {
  }

  lemma Extended(s: seq<byte>, from: nat, at: nat, next: nat, x: seq<byte>, y: seq<byte>)
    requires from <= at <= next <= |s| && s[..at][from..] == x && s[at..next] == y
    ensures s[..next][from..] == x + y
  {
  }

  lemma {:induction false} JoinedFirst(elems: seq<seq<byte>>)
    requires elems != []
    ensures Joined(elems) == elems[0] + [NUL] + Joined(elems[1..])
  {
    var n := |elems|;
    if n > 1 {
      JoinedFirst(elems[..n - 1]);
      assert elems[..n - 1][1..] == elems[1..][..n - 2];
      assert elems[1..][n - 2] == elems[n - 1];
    }
  }

  /** The bytes of a packed list: with a terminator every string is followed by a NUL, without one the last
      is not. */
  lemma PackedLayout(elems: seq<seq<byte>>)
    ensures elems != [] ==> Packed(elems, false) + ['\0'] == Packed(elems, true)
    ensures |elems| == 1 ==> Packed(elems, false) == elems[0] && Packed(elems, true) == elems[0] + ['\0']
    ensures |elems| > 1 ==> forall terminator ::
      Packed(elems, terminator) == elems[0] + ['\0'] + Packed(elems[1..], terminator)
    ensures Packed([], false) == [] && Packed([], true) == ['\0']
  {
    if elems != [] {
      JoinedFirst(elems);
      if |elems| > 1 {
        var s := Joined(elems[1..]);
        JoinedFirst(elems[1..]);
        assert elems[0] + [NUL] + s[..|s| - 1] == (elems[0] + [NUL] + s)[..|elems[0]| + |s|];
      }
    }
  }

  method PackedLength(elems: seq<seq<byte>>, terminator: bool) returns (length: nat)
    requires elems != []
    ensures length == |Packed(elems, terminator)|
    ensures |elems| == 1 ==> length == |elems[0]| + if terminator then 1 else 0
  {
    PackedLayout(elems);
    length := 0;
    for i := 0 to |elems|
      invariant length == |Joined(elems[..i])|
    {
      JoinedOneMore(elems, i);
      length := length + |elems[i]| + 1;
    }
    assert elems[..|elems|] == elems;
    if !terminator { length := length - 1; }
  }

  /** What goes out for a message: itself if it fits, else an error in its place. */
  function Outgoing(m: Message): Frame {
    var body := Packed(m.body, m.terminator);
    if |body| <= PAYLOAD_MAX then
      Frame(HeaderBytes(Header(m.kind, m.reqId, m.txId, |body|)), body)
    else
      Frame(HeaderBytes(Header(XS_ERROR, m.reqId, m.txId, |TOO_BIG|)), TOO_BIG)
  }

  /** The buffer starts with the domain's path and a slash. */
  predicate Prefixed(buff: seq<byte>, domPath: seq<byte>) {
    |domPath| < |buff| && buff[..|domPath| + 1] == domPath + ['/']
  }

  lemma PrefixKept(buff: seq<byte>, domPath: seq<byte>, at: nat, x: seq<byte>)
    requires Prefixed(buff, domPath) && |domPath| < at && at + |x| <= |buff|
    ensures Prefixed(Splice(buff, at, x), domPath)
  {
  }

  class Wire {
    const domPath: seq<byte>
    const hdr: array<byte>
    const buff: array<byte>
    const body: nat

    ghost predicate Valid()
      reads this, hdr, buff
    {
      && hdr.Length == HEADER_SIZE && buff.Length == DOM_PATH_MAX + PAYLOAD_MAX + 1 && hdr != buff
      && body == |domPath| + 1 <= DOM_PATH_MAX
      && Prefixed(buff[..], domPath)
    }

    function Hdr(): Header
      requires hdr.Length == HEADER_SIZE
      reads hdr
    {
      HeaderOf(hdr[..])
    }

    /** The first n bytes of the body. */
    ghost function Body(n: nat): (s: seq<byte>)
      requires Valid() && n <= PAYLOAD_MAX + 1
      reads this, hdr, buff
      ensures |s| == n
    {
      buff[body..body + n]
    }

    constructor (path: seq<byte>)
      requires |path| < DOM_PATH_MAX
      ensures Valid() && domPath == path && fresh(hdr) && fresh(buff)
    {
      domPath, body := path, |path| + 1;
      hdr := new byte[HEADER_SIZE](_ => NUL);
      buff := new byte[DOM_PATH_MAX + PAYLOAD_MAX + 1](_ => NUL);
      new;
      PutBytes(buff, 0, path + ['/', NUL]);
    }

    method SanitizeInput()
      requires Valid() && Hdr().len <= PAYLOAD_MAX
      modifies buff
      ensures Valid() && Body(Hdr().len) == old(Body(Hdr().len)) && buff[body + Hdr().len] == NUL
    {
      buff[body + Hdr().len] := NUL;
    }

    method SetHeader(h: Header)
      requires Valid()
      modifies hdr
      ensures Valid() && hdr[..] == HeaderBytes(h) && Hdr() == h
    {
      HeaderRoundTrip(h);
      PutBytes(hdr, 0, HeaderBytes(h));
    }

    /** `build_hdr`: the length is left for `build_body`. */
    method BuildHdr(kind: uint32, reqId: uint32, txId: uint32)
      requires Valid()
      modifies hdr
      ensures Valid() && Hdr() == Header(kind, reqId, txId, 0) && hdr[..] == HeaderBytes(Hdr())
    {
      SetHeader(Header(kind, reqId, txId, 0));
    }

    method SetLen(n: uint32)
      requires Valid()
      modifies hdr
      ensures Valid() && Hdr() == old(Hdr()).(len := n)
      ensures old(hdr[..] == HeaderBytes(Hdr())) ==> hdr[..] == HeaderBytes(Hdr())
    {
      PutBytes(hdr, 12, WordBytes(n));
      WordOfBytes(n);
      assert hdr[..][..12] == old(hdr[..])[..12];
      assert hdr[..][..4] == old(hdr[..])[..4] && hdr[..][4..8] == old(hdr[..])[4..8];
      assert hdr[..][8..12] == old(hdr[..])[8..12] && hdr[..][12..] == WordBytes(n);
    }

    method BuildBodyOne(elem: seq<byte>, terminator: bool) returns (ok: bool)
      requires Valid() && hdr[..] == HeaderBytes(Hdr())
      modifies hdr, buff
      ensures Valid() && (ok <==> |elem| <= PAYLOAD_MAX)
      ensures ok ==> var s := if terminator then elem + [NUL] else elem;
        && Hdr() == old(Hdr()).(len := |s|) && hdr[..] == HeaderBytes(Hdr())
        && Body(|s|) == s
    {
      if |elem| == 0 {
        buff[body] := NUL;
        SetLen(if terminator then 1 else 0);
        return true;
      }
      if |elem| > PAYLOAD_MAX { return false; }
      PutBytes(buff, body, elem);
      buff[body + |elem|] := NUL;
      SetLen(if terminator then |elem| + 1 else |elem|);
      return true;
    }

    method PutElem(at: nat, elem: seq<byte>)
      requires Valid() && body <= at && at + |elem| < buff.Length
      modifies buff
      ensures Valid() && buff[..at] == old(buff[..at])
      ensures buff[at..at + |elem| + 1] == elem + [NUL]
    {
      PutBytes(buff, at, elem);
      buff[at + |elem|] := NUL;
      assert buff[..at][..body] == old(buff[..at])[..body];
    }

    method PutElems(elems: seq<seq<byte>>)
      requires Valid() && |Joined(elems)| <= PAYLOAD_MAX + 1
      modifies buff
      ensures Valid() && Body(|Joined(elems)|) == Joined(elems)
    {
      hide Joined;
      var at := body;
      EmptyJoined(elems);
      for i := 0 to |elems|
        invariant Valid() && at == body + |Joined(elems[..i])| <= body + PAYLOAD_MAX + 1
        invariant buff[..at][body..] == Joined(elems[..i])
      {
        JoinedOneMore(elems, i);
        JoinedPrefix(elems, i + 1);
        var next := at + |elems[i]| + 1;
        PutElem(at, elems[i]);
        Extended(buff[..], body, at, next, Joined(elems[..i]), elems[i] + [NUL]);
        at := next;
      }
      assert elems[..|elems|] == elems;
    }

    method BuildBody(elems: seq<seq<byte>>, terminator: bool) returns (ok: bool)
      requires Valid() && hdr[..] == HeaderBytes(Hdr())
      modifies hdr, buff
      ensures Valid() && (ok <==> |Packed(elems, terminator)| <= PAYLOAD_MAX)
      ensures ok ==> Hdr() == old(Hdr()).(len := |Packed(elems, terminator)|) && hdr[..] == HeaderBytes(Hdr())
      ensures ok ==> Body(|Packed(elems, terminator)|) == Packed(elems, terminator)
      ensures !ok ==> hdr[..] == old(hdr[..])
      ensures |elems| == 1 && !terminator ==>
        (ok <==> |elems[0]| <= 4096) && (ok ==> Hdr().len == |elems[0]| && Body(|elems[0]|) == elems[0])
    {
      PackedLayout(elems);
      if elems == [] {
        buff[body] := NUL;
        SetLen(if terminator then 1 else 0);
        return true;
      }
      var length := PackedLength(elems, terminator);
      if length > PAYLOAD_MAX { return false; }
      PutElems(elems);
      assert Body(length) == Body(|Joined(elems)|)[..length];
      SetLen(length);
      return true;
    }
  }
}
