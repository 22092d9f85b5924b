/**
 What `xs_proto` reads out of a message body: NUL-separated arguments, integers and permissions; and how
 permissions are written into one.
 */
module Arguments {

  import opened Bytes
  import opened Wires
  import Framing
  import Paths
  import opened Tree

  // ---------------------------------------------------------------- numbers

  const LLONG_MIN: int := -0x8000_0000_0000_0000
  const LLONG_MAX: int := 0x7fff_ffff_ffff_ffff
  /** std::numeric_limits<domid_t>::max(), domid_t being 16 bits wide */
  const DOMID_MAX: nat := 65535

  predicate IsDigit(c: byte) { '0' <= c <= '9' }

  /** isspace in the C locale */
  predicate IsSpace(c: byte) { c == ' ' || '\t' <= c <= '\r' }

  function SkipSpace(s: seq<byte>): seq<byte> {
    if s != [] && IsSpace(s[0]) then SkipSpace(s[1..]) else s
  }

  function LeadingDigits(s: seq<byte>): (d: seq<byte>) {
    if s != [] && IsDigit(s[0]) then [s[0]] + LeadingDigits(s[1..]) else []
  }

  function ValueOf(d: seq<byte>): int {
    if d == [] then 0 else ValueOf(d[..|d| - 1]) * 10 + (d[|d| - 1] as int - '0' as int)
  }

  /** std::stoll: blanks and a sign may come first, whatever follows the digits is ignored. */
  function Stoll(s: seq<byte>): Paths.Option<int> {
    var t := SkipSpace(s);
    var signed := t != [] && (t[0] == '-' || t[0] == '+');
    var d := LeadingDigits(if signed then t[1..] else t);
    var n := if signed && t[0] == '-' then -ValueOf(d) else ValueOf(d);
    if d == [] || !(LLONG_MIN <= n <= LLONG_MAX) then Paths.None else Paths.Some(n)
  }

  /** Digits are read in base ten, the first the most significant. */
  lemma DecimalPlaces(d: seq<byte>, c: byte)
    ensures ValueOf([]) == 0 && ValueOf(d + [c]) == 10 * ValueOf(d) + (c as int - 48)
  {
    assert (d + [c])[..|d|] == d;
  }

  /** `get_int` into a type that holds 0..max */
  function GetInt(s: seq<byte>, max: nat): Paths.Option<nat> {
    match Stoll(s)
    case Some(n) => if 0 <= n <= max then Paths.Some(n) else Paths.None
    case None => Paths.None
  }

  /** std::to_string */
  function ToString(n: nat): (s: seq<byte>)
    ensures s != []
  {
    var last := ('0' as int + n % 10) as char;
    if n < 10 then [last] else ToString(n / 10) + [last]
  }

  lemma {:induction false} ToStringIsDecimal(n: nat)
    ensures ValueOf(ToString(n)) == n && forall c <- ToString(n) :: IsDigit(c)
    ensures ToString(n)[0] == '0' ==> n == 0 && ToString(n) == ['0']
  {
    var s := ToString(n);
    if n >= 10 {
      ToStringIsDecimal(n / 10);
      assert s[..|s| - 1] == ToString(n / 10);
    }
  }

  lemma {:induction false} LeadingDigitsStop(d: seq<byte>, junk: seq<byte>)
    requires (forall c <- d :: IsDigit(c)) && (junk == [] || !IsDigit(junk[0]))
    ensures LeadingDigits(d + junk) == d
  {
    if d == [] {
      assert d + junk == junk;
    } else {
      assert (d + junk)[1..] == d[1..] + junk;
      LeadingDigitsStop(d[1..], junk);
    }
  }

  lemma {:induction false} SkipSpaceStops(blanks: seq<byte>, rest: seq<byte>)
    requires (forall c <- blanks :: IsSpace(c)) && rest != [] && !IsSpace(rest[0])
    ensures SkipSpace(blanks + rest) == rest
  {
    if blanks == [] {
      assert blanks + rest == rest;
    } else {
      assert (blanks + rest)[1..] == blanks[1..] + rest;
      SkipSpaceStops(blanks[1..], rest);
    }
  }

  /** What std::stoll finds once it has skipped the blanks. */
  lemma SignThenDigits(sign: seq<byte>, d: seq<byte>, junk: seq<byte>)
    requires (sign == [] || sign == ['+'] || sign == ['-']) && d != [] && forall c <- d :: IsDigit(c)
    requires junk == [] || !IsDigit(junk[0])
    ensures var t := sign + (d + junk);
      && t != [] && !IsSpace(t[0])
      && (t[0] == '-' || t[0] == '+' <==> sign != []) && (t[0] == '-' <==> sign == ['-'])
      && LeadingDigits(if sign != [] then t[1..] else t) == d
  {
    var t := sign + (d + junk);
    LeadingDigitsStop(d, junk);
    assert d[0] in d && (d + junk)[0] == d[0];
    assert t[|sign|..] == d + junk;
    if sign == [] { assert t == d + junk; }
  }

  /** A number printed and read back is itself, whatever blanks and sign come before it and whatever text
      after it, if the type read into can hold it. */
  lemma NumberRoundTrip(blanks: seq<byte>, sign: seq<byte>, n: nat, junk: seq<byte>, max: nat)
    requires (forall c <- blanks :: IsSpace(c)) && (sign == [] || sign == ['+'] || sign == ['-'])
    requires max <= LLONG_MAX && (junk == [] || !IsDigit(junk[0]))
    ensures var v := if sign == ['-'] then -(n as int) else n as int;
      GetInt(blanks + (sign + (ToString(n) + junk)), max) == if 0 <= v <= max then Paths.Some(v) else Paths.None
  {
    var d := ToString(n);
    ToStringIsDecimal(n);
    hide SkipSpace, LeadingDigits, ValueOf, ToString, IsSpace, IsDigit;
    SignThenDigits(sign, d, junk);
    SkipSpaceStops(blanks, sign + (d + junk));
  }

  // ---------------------------------------------------------------- permissions

  function Perm2Str(p: Permission): seq<byte> {
    var c: byte := if p.read && p.write then 'b' else if p.read then 'r' else if p.write then 'w' else 'n';
    [c] + ToString(p.cid)
  }

  function Str2Perm(s: seq<byte>): Paths.Option<Permission> {
    if |s| < 2 || s[0] !in {'b', 'r', 'w', 'n'} then Paths.None
    else
      match GetInt(s[1..], DOMID_MAX)
      case Some(n) => Paths.Some(Permission(n, s[0] in {'b', 'r'}, s[0] in {'b', 'w'}))
      case None => Paths.None
  }

  /** A permission printed and read back is itself exactly when its client id fits a domain id. */
  lemma PermRoundTrip(p: Permission, junk: seq<byte>)
    requires junk == [] || !IsDigit(junk[0])
    ensures Perm2Str(p) != [] && (Perm2Str(p)[0] in {'b', 'r'} <==> p.read) && (Perm2Str(p)[0] in {'b', 'w'} <==> p.write)
    ensures var d := Perm2Str(p)[1..];
      d != [] && ValueOf(d) == p.cid && (forall c <- d :: '0' <= c <= '9') && (d[0] == '0' ==> d == ['0'])
    ensures Str2Perm(Perm2Str(p) + junk) == if p.cid <= 65535 then Paths.Some(p) else Paths.None
  {
    var s := Perm2Str(p) + junk;
    assert Perm2Str(p)[1..] == ToString(p.cid);
    ToStringIsDecimal(p.cid);
    assert s[1..] == ToString(p.cid) + junk;
    NumberRoundTrip([], [], p.cid, junk, DOMID_MAX);
    assert [] + ([] + s[1..]) == s[1..];
  }

  /** arg is the text of p: one of four letters, then blanks, a sign, digits and anything that is not a digit,
      where only the letter and the digits are needed and the number is at most 65535. */
  ghost predicate Spells(arg: seq<byte>, p: Permission, blanks: seq<byte>, sign: seq<byte>, d: seq<byte>, junk: seq<byte>) {
    && arg != [] && arg[1..] == blanks + (sign + (d + junk))
    && arg[0] == (if p.read && p.write then 'b' else if p.read then 'r' else if p.write then 'w' else 'n')
    && (forall c <- blanks :: c == ' ' || '\t' <= c <= '\r') && (sign == [] || sign == ['+'] || sign == ['-'])
    && d != [] && (forall c <- d :: '0' <= c <= '9') && (junk == [] || !('0' <= junk[0] <= '9'))
    && p.cid <= 65535 && ValueOf(d) == (if sign == ['-'] then -(p.cid as int) else p.cid as int)
  }

  ghost predicate IsPermText(arg: seq<byte>, p: Permission) {
    exists blanks, sign, d, junk :: Spells(arg, p, blanks, sign, d, junk)
  }

  ghost predicate IsNoPerm(arg: seq<byte>) {
    forall p :: !IsPermText(arg, p)
  }

  lemma {:induction false} BlanksSplit(s: seq<byte>) returns (blanks: seq<byte>)
    ensures s == blanks + SkipSpace(s) && forall c <- blanks :: IsSpace(c)
    ensures SkipSpace(s) == [] || !IsSpace(SkipSpace(s)[0])
  {
    if s != [] && IsSpace(s[0]) {
      var more := BlanksSplit(s[1..]);
      blanks := [s[0]] + more;
    } else {
      blanks := [];
    }
  }

  lemma {:induction false} DigitsSplit(s: seq<byte>) returns (junk: seq<byte>)
    ensures s == LeadingDigits(s) + junk && (junk == [] || !IsDigit(junk[0]))
    ensures forall c <- LeadingDigits(s) :: IsDigit(c)
  {
    if s != [] && IsDigit(s[0]) {
      junk := DigitsSplit(s[1..]);
    } else {
      junk := s;
    }
  }

  lemma {:induction false} ValueIsNatural(d: seq<byte>)
    requires forall c <- d :: IsDigit(c)
    ensures ValueOf(d) >= 0
  {
    if d != [] {
      ValueIsNatural(d[..|d| - 1]);
      assert d[|d| - 1] in d;
    }
  }

  lemma SpelledIsRead(arg: seq<byte>, p: Permission, blanks: seq<byte>, sign: seq<byte>, d: seq<byte>, junk: seq<byte>)
    requires Spells(arg, p, blanks, sign, d, junk)
    ensures Str2Perm(arg) == Paths.Some(p)
  {
    var t := sign + (d + junk);
    SignThenDigits(sign, d, junk);
    SkipSpaceStops(blanks, t);
    assert |arg[1..]| >= |d| >= 1;
    hide SkipSpace, LeadingDigits, ValueOf;
  }

  lemma ReadIsSpelled(arg: seq<byte>, p: Permission)
    requires Str2Perm(arg) == Paths.Some(p)
    ensures IsPermText(arg, p)
  {
    var s := arg[1..];
    var blanks := BlanksSplit(s);
    var t := SkipSpace(s);
    var sign := if t != [] && (t[0] == '-' || t[0] == '+') then [t[0]] else [];
    var rest := if sign != [] then t[1..] else t;
    var junk := DigitsSplit(rest);
    var d := LeadingDigits(rest);
    ValueIsNatural(d);
    assert t == sign + (d + junk);
    hide SkipSpace, LeadingDigits, ValueOf;
    assert Spells(arg, p, blanks, sign, d, junk);
  }

  /** Exactly the texts of a permission are read as it; every other argument is refused. */
  lemma Str2PermExactly(arg: seq<byte>)
    ensures forall p :: Str2Perm(arg) == Paths.Some(p) <==> IsPermText(arg, p)
    ensures Str2Perm(arg).None? <==> IsNoPerm(arg)
  {
    forall p ensures Str2Perm(arg) == Paths.Some(p) <==> IsPermText(arg, p) {
      if Str2Perm(arg) == Paths.Some(p) { ReadIsSpelled(arg, p); }
      if blanks, sign, d, junk :| Spells(arg, p, blanks, sign, d, junk) { SpelledIsRead(arg, p, blanks, sign, d, junk); }
    }
    if Str2Perm(arg).Some? { assert IsPermText(arg, Str2Perm(arg).value); }
  }

  predicate NulFree(s: seq<byte>) { NUL !in s }

  lemma PermIsNulFree(p: Permission)
    ensures NulFree(Perm2Str(p))
  {
    ToStringIsDecimal(p.cid);
  }

  // ---------------------------------------------------------------- arguments

  /** The C string a body starts with; the receiver has put a NUL after its last byte. */
  function FirstArg(s: seq<byte>): (r: seq<byte>)
    ensures |r| <= |s| && r == s[..|r|] && NulFree(r) && (|r| < |s| ==> s[|r|] == NUL)
  {
    if s == [] || s[0] == NUL then [] else [s[0]] + FirstArg(s[1..])
  }

  /** The arguments `get_next_arg` walks over after the first. */
  function NextArgs(s: seq<byte>): seq<seq<byte>>
    decreases |s|
  {
    var next := |FirstArg(s)| + 1;
    if next >= |s| then [] else [FirstArg(s[next..])] + NextArgs(s[next..])
  }

  function Args(s: seq<byte>): seq<seq<byte>> { [FirstArg(s)] + NextArgs(s) }

  lemma FirstArgIs(x: seq<byte>, s: seq<byte>)
    requires NulFree(x) && x <= s && (|x| < |s| ==> s[|x|] == NUL)
    ensures FirstArg(s) == x
  {
  }

  /** A list of strings packed with its terminator is read back as it was, empty strings included. */
  lemma {:induction false} ArgsOfPacked(elems: seq<seq<byte>>)
    requires elems != [] && forall e <- elems :: NulFree(e)
    ensures Args(Packed(elems, true)) == elems
  {
    var s := Packed(elems, true);
    JoinedFirst(elems);
    assert elems[0] in elems;
    FirstArgIs(elems[0], s);
    assert s[|elems[0]| + 1..] == Joined(elems[1..]);
    if |elems| > 1 {
      JoinedFirst(elems[1..]);
      ArgsOfPacked(elems[1..]);
    }
    assert elems == [elems[0]] + elems[1..];
  }

  lemma ArgsStep(x: seq<byte>, rest: seq<byte>)
    requires NulFree(x)
    ensures Args(x) == [x]
    ensures Args(x + [NUL] + rest) == [x] + if rest == [] then [] else Args(rest)
  {
    var s := x + [NUL] + rest;
    FirstArgIs(x, x);
    FirstArgIs(x, s);
    if rest != [] { assert s[|x| + 1..] == rest; }
  }

  /** Without a terminator too, unless the last string is empty: then it is not read, for want of a byte. */
  lemma {:induction false} ArgsOfUnterminated(elems: seq<seq<byte>>)
    requires elems != [] && forall e <- elems :: NulFree(e)
    ensures var n := |elems| - 1;
      Args(Packed(elems, false)) == if n > 0 && elems[n] == [] then elems[..n] else elems
  {
    hide Args, Packed, NulFree;
    var n := |elems| - 1;
    PackedLayout(elems);
    assert elems[0] in elems;
    if n == 0 {
      ArgsStep(elems[0], []);
      assert elems == [elems[0]];
    } else {
      var rest := elems[1..];
      ArgsStep(elems[0], Packed(rest, false));
      ArgsOfUnterminated(rest);
      EmptyRest(rest);
      assert elems == [elems[0]] + rest && elems[..n] == [elems[0]] + rest[..n - 1];
      assert rest[n - 1] == elems[n];
    }
  }

  /** Only the empty string packs to nothing. */
  lemma EmptyRest(elems: seq<seq<byte>>)
    requires elems != []
    ensures Packed(elems, false) == [] <==> elems == [[]]
  {
    PackedLayout(elems);
  }

  // ---------------------------------------------------------------- permission lists

  /** The list `op_set_perms` ends up with, none if any of the arguments is not a permission. */
  function PermsOf(before: Perms, args: seq<seq<byte>>): Paths.Option<Perms>
    decreases |args|
  {
    if args == [] then Paths.Some(before)
    else
      match Str2Perm(args[0])
      case None => Paths.None
      case Some(p) => PermsOf(before + [p], args[1..])
  }

  /** The list that the texts spell, one permission for each, or a text that spells none. */
  ghost predicate ReadExactly(args: seq<seq<byte>>, result: Paths.Option<Perms>) {
    match result
    case Some(perms) => |perms| == |args| && forall i | 0 <= i < |args| :: IsPermText(args[i], perms[i])
    case None => exists i | 0 <= i < |args| :: IsNoPerm(args[i])
  }

  lemma {:induction false} PermsOfSome(before: Perms, args: seq<seq<byte>>)
    requires PermsOf(before, args).Some?
    ensures var perms := PermsOf(before, args).value;
      && |perms| == |before| + |args| && perms[..|before|] == before
      && forall i | 0 <= i < |args| :: IsPermText(args[i], perms[|before| + i])
    decreases |args|
  {
    hide Str2Perm, IsPermText, IsNoPerm;
    if args != [] {
      Str2PermExactly(args[0]);
      var p := Str2Perm(args[0]).value;
      var perms := PermsOf(before, args).value;
      PermsOfSome(before + [p], args[1..]);
      assert perms[..|before| + 1] == before + [p];
      forall i | 0 <= i < |args| ensures IsPermText(args[i], perms[|before| + i]) {
        if i == 0 { assert perms[|before|] == perms[..|before| + 1][|before|] == p; } else { assert args[i] == args[1..][i - 1]; }
      }
    }
  }

  lemma {:induction false} PermsOfRefused(before: Perms, args: seq<seq<byte>>)
    requires PermsOf(before, args).None?
    ensures exists i | 0 <= i < |args| :: IsNoPerm(args[i])
    decreases |args|
  {
    hide Str2Perm, IsPermText, IsNoPerm;
    Str2PermExactly(args[0]);
    if Str2Perm(args[0]).Some? {
      PermsOfRefused(before + [Str2Perm(args[0]).value], args[1..]);
      var i :| 0 <= i < |args[1..]| && IsNoPerm(args[1..][i]);
      assert args[i + 1] == args[1..][i];
    }
  }

  /** Every argument is the text of a permission and the list is read, or it is refused. */
  lemma PermsOfExactly(args: seq<seq<byte>>)
    ensures ReadExactly(args, PermsOf([], args))
  {
    hide IsNoPerm, IsPermText, PermsOf;
    if PermsOf([], args).Some? { PermsOfSome([], args); } else { PermsOfRefused([], args); }
  }

  lemma PermsOfNone(before: Perms)
    ensures PermsOf(before, []) == Paths.Some(before)
  {
  }

  lemma PermsOfNext(before: Perms, arg: seq<byte>, args: seq<seq<byte>>)
    ensures PermsOf(before, [arg] + args) ==
      match Str2Perm(arg) case None => Paths.None case Some(p) => PermsOf(before + [p], args)
  {
  }

  function PermStrings(perms: Perms): (r: seq<seq<byte>>)
    ensures |r| == |perms|
  {
    seq(|perms|, i requires 0 <= i < |perms| => Perm2Str(perms[i]))
  }

  lemma {:induction false} PermStringsRoundTrip(before: Perms, perms: Perms)
    ensures PermsOf(before, PermStrings(perms)) ==
      if forall p <- perms :: p.cid <= DOMID_MAX then Paths.Some(before + perms) else Paths.None
    decreases |perms|
  {
    hide Str2Perm, Perm2Str;
    if perms == [] {
      assert before + perms == before;
    } else {
      PermRoundTrip(perms[0], []);
      assert Perm2Str(perms[0]) + [] == Perm2Str(perms[0]);
      assert PermStrings(perms)[1..] == PermStrings(perms[1..]);
      PermStringsRoundTrip(before + [perms[0]], perms[1..]);
      assert perms == [perms[0]] + perms[1..];
      assert before + [perms[0]] + perms[1..] == before + perms;
    }
  }

  /** A permission list sent in a message that fits is read out of it by the receiver exactly when every
      client id fits a domain id; otherwise the request is refused. */
  lemma PermListRoundTrip(kind: uint32, reqId: uint32, txId: uint32, path: seq<byte>, perms: Perms)
    requires NulFree(path)
    requires |Packed([path] + PermStrings(perms), true)| <= PAYLOAD_MAX
    ensures
      var m := Message(kind, reqId, txId, [path] + PermStrings(perms), true);
      var (received, rest) := Framing.Split(Framing.Join(Framing.Frames([m])));
      && |received| == 1 && rest == [] && HeaderOf(received[0].hdr).kind == kind
      && FirstArg(received[0].body) == path
      && PermsOf([], NextArgs(received[0].body)) == if forall p <- perms :: p.cid <= DOMID_MAX then Paths.Some(perms) else Paths.None
  {
    hide Packed, NextArgs, Framing.Split, Framing.Join, HeaderOf, HeaderBytes, PermsOf;
    var strings := [path] + PermStrings(perms);
    var m := Message(kind, reqId, txId, strings, true);
    Framing.SentIsReceived([m]);
    assert Framing.Frames([m])[0] == Outgoing(m);
    HeaderRoundTrip(Header(kind, reqId, txId, |Packed(strings, true)|));
    forall e <- strings ensures NulFree(e) {
      if e != path {
        var i :| 0 <= i < |perms| && PermStrings(perms)[i] == e;
        PermIsNulFree(perms[i]);
      }
    }
    ArgsOfPacked(strings);
    assert Args(Packed(strings, true))[1..] == PermStrings(perms);
    PermStringsRoundTrip([], perms);
    assert [] + perms == perms;
  }

  // ---------------------------------------------------------------- reading a wire buffer

  /** A received message that has been sanitized, on a wire whose domain path is a C string. */
  ghost predicate Sanitized(w: Wire)
    reads w, w.hdr, w.buff
  {
    && w.Valid() && w.Hdr().len <= PAYLOAD_MAX && NulFree(w.domPath)
    && w.buff[w.body + w.Hdr().len] == NUL
  }

  ghost function BodyOf(w: Wire): (s: seq<byte>)
    requires Sanitized(w)
    reads w, w.hdr, w.buff
    ensures |s| == w.Hdr().len
  {
    w.Body(w.Hdr().len)
  }

  /** strlen: the NUL after the body is the last place it looks at. */
  method StrLen(w: Wire, at: nat) returns (n: nat)
    requires Sanitized(w) && at <= w.body + w.Hdr().len
    ensures at + n <= w.body + w.Hdr().len
    ensures w.buff[at..at + n] == FirstArg(w.buff[at..w.body + w.Hdr().len])
  {
    hide FirstArg, HeaderOf, Prefixed;
    n := 0;
    while w.buff[at + n] != NUL
      invariant at + n <= w.body + w.Hdr().len && NulFree(w.buff[at..at + n])
      decreases w.body + w.Hdr().len - (at + n)
    {
      assert w.buff[at..at + n + 1] == w.buff[at..at + n] + [w.buff[at + n]];
      n := n + 1;
    }
    FirstArgIs(w.buff[at..at + n], w.buff[at..w.body + w.Hdr().len]);
  }

  /** `get_path`: absolute and special paths are where they are, others continue the domain's path. */
  method GetPath(w: Wire) returns (at: nat)
    requires Sanitized(w)
    ensures at <= w.body
    ensures w.buff[at..w.body] == if w.buff[w.body] == '/' || w.buff[w.body] == '@' then [] else w.domPath + ['/']
  {
    at := if w.buff[w.body] == '/' || w.buff[w.body] == '@' then w.body else 0;
    assert w.buff[0..w.body] == w.buff[..][..w.body];
  }

  method GetNextArg(w: Wire, curr: nat) returns (next: Paths.Option<nat>)
    requires Sanitized(w) && curr <= w.body + w.Hdr().len
    requires curr + |FirstArg(w.buff[curr..w.body + w.Hdr().len])| >= w.body
    ensures
      var rest := w.buff[curr..w.body + w.Hdr().len];
      match next
      case None => NextArgs(rest) == []
      case Some(at) =>
        && curr < at < w.body + w.Hdr().len && at >= w.body
        && NextArgs(rest) == Args(w.buff[at..w.body + w.Hdr().len])
  {
    hide FirstArg, HeaderOf, Prefixed;
    var n := StrLen(w, curr);
    var at := curr + n + 1;
    ghost var end := w.body + w.Hdr().len;
    next := if at - w.body >= w.Hdr().len then Paths.None else Paths.Some(at);
    assert at <= end ==> w.buff[curr..end][n + 1..] == w.buff[at..end];
  }

  lemma {:induction false} FirstArgAfterPrefix(prefix: seq<byte>, s: seq<byte>)
    requires NulFree(prefix)
    ensures FirstArg(prefix + s) == prefix + FirstArg(s)
  {
    if prefix == [] {
      assert prefix + s == s;
    } else {
      assert prefix[0] in prefix && (prefix + s)[1..] == prefix[1..] + s;
      FirstArgAfterPrefix(prefix[1..], s);
    }
  }

  lemma DropAfterPrefix(prefix: seq<byte>, s: seq<byte>, n: nat)
    ensures n <= |s| ==> (prefix + s)[|prefix| + n..] == s[n..]
  {
  }

  /** Seen from the domain's path, the first argument is longer and the others are the same. */
  lemma ArgsAfterPrefix(prefix: seq<byte>, s: seq<byte>)
    requires NulFree(prefix)
    ensures FirstArg(prefix + s) == prefix + FirstArg(s) && NextArgs(prefix + s) == NextArgs(s)
  {
    hide FirstArg;
    FirstArgAfterPrefix(prefix, s);
    DropAfterPrefix(prefix, s, |FirstArg(s)| + 1);
  }

  /** `get_path` and what follows it: relative or absolute, the path does not change what is read after it. */
  method PathArg(w: Wire) returns (at: nat)
    requires Sanitized(w)
    ensures at <= w.body <= at + |FirstArg(w.buff[at..w.body + w.Hdr().len])|
    ensures NextArgs(w.buff[at..w.body + w.Hdr().len]) == NextArgs(BodyOf(w))
    ensures FirstArg(w.buff[at..w.body + w.Hdr().len]) == w.buff[at..w.body] + FirstArg(BodyOf(w))
    ensures w.buff[at..w.body] == if w.buff[w.body] == '/' || w.buff[w.body] == '@' then [] else w.domPath + ['/']
  {
    hide FirstArg, NextArgs;
    at := GetPath(w);
    ArgsAfterPrefix(w.buff[at..w.body], BodyOf(w));
    assert w.buff[at..w.body + w.Hdr().len] == w.buff[at..w.body] + BodyOf(w);
  }

  /** The path `op_watch` registers, and whether it takes it as relative. */
  method WatchPath(w: Wire) returns (path: seq<byte>, relative: bool)
    requires Sanitized(w)
    ensures relative <==> w.buff[w.body] != '/' && w.buff[w.body] != '@'
    ensures path == (if relative then w.domPath + ['/'] else []) + FirstArg(BodyOf(w))
  {
    hide FirstArg, NextArgs, HeaderOf, Prefixed;
    var at := PathArg(w);
    assert |w.buff[at..w.body]| == w.body - at;
    var n := StrLen(w, at);
    path, relative := w.buff[at..at + n], at != w.body;
  }

  /** The loop of `op_set_perms` */
  method CollectPerms(w: Wire) returns (ok: bool, perms: Perms)
    requires Sanitized(w)
    ensures PermsOf([], NextArgs(BodyOf(w))) == if ok then Paths.Some(perms) else Paths.None
  {
    hide FirstArg, NextArgs, Str2Perm, PermsOf, HeaderOf, Prefixed;
    ghost var end := w.body + w.Hdr().len;
    var arg := PathArg(w);
    perms := [];
    while true
      invariant arg <= end && arg + |FirstArg(w.buff[arg..end])| >= w.body
      invariant PermsOf(perms, NextArgs(w.buff[arg..end])) == PermsOf([], NextArgs(BodyOf(w)))
      decreases end - arg
    {
      var next := GetNextArg(w, arg);
      PermsOfNone(perms);
      if next.None? { return true, perms; }
      arg := next.value;
      var n := StrLen(w, arg);
      PermsOfNext(perms, FirstArg(w.buff[arg..end]), NextArgs(w.buff[arg..end]));
      match Str2Perm(w.buff[arg..arg + n])
      case None => return false, perms;
      case Some(p) => perms := perms + [p];
    }
  }

  /** What `op_set_perms` makes of its arguments: every one is the text of a permission, or it is refused. */
  method ReadPerms(w: Wire) returns (ok: bool, perms: Perms)
    requires Sanitized(w)
    ensures ReadExactly(NextArgs(BodyOf(w)), if ok then Paths.Some(perms) else Paths.None)
  {
    hide ReadExactly, PermsOf, NextArgs;
    ok, perms := CollectPerms(w);
    PermsOfExactly(NextArgs(BodyOf(w)));
  }

  /** The loop of `op_get_perms` */
  method WritePerms(perms: Perms) returns (strings: seq<seq<byte>>)
    ensures strings == PermStrings(perms)
  {
    strings := [];
    for i := 0 to |perms|
      invariant strings == PermStrings(perms)[..i]
    {
      strings := strings + [Perm2Str(perms[i])];
    }
  }
}
