/**
 Store paths.  The C++ code keeps a path as a string and climbs it with `basename`
 (split at the last '/').  Here a path is its chain of basenames; Parse and Format
 relate the chain to the string, and BasenameIsParse relates it to `basename`.
 */
module Paths {

  /** A path component: what `basename` returns as `name` never holds a '/'. */
  type Name = s: string | '/' !in s witness ""

  datatype Option<+T> = None | Some(value: T)

  /** A path with no '/' is a root; any other path is a parent path and a name. */
  datatype Path = Root(top: Name) | Sub(parent: Path, name: Name)

  function Depth(p: Path): nat {
    match p
    case Root(_) => 0
    case Sub(parent, _) => 1 + Depth(parent)
  }

  /** q lies strictly below p. */
  predicate Below(q: Path, p: Path) {
    q.Sub? && (q.parent == p || Below(q.parent, p))
  }

  /** The child of p on the way down to q. */
  function Toward(q: Path, p: Path): Name
    requires Below(q, p)
  {
    if q.parent == p then q.name else Toward(q.parent, p)
  }

  lemma BelowIsDeeper(q: Path, p: Path)
    requires Below(q, p)
    ensures Depth(p) < Depth(q)
  {
  }

  lemma BelowTransitive(q: Path, r: Path, p: Path)
    requires Below(q, r) && (Below(r, p) || r == p)
    ensures Below(q, p)
    ensures Below(r, p) ==> Toward(q, p) == Toward(r, p)
  {
    if Below(r, p) { BelowIsDeeper(r, p); }
    if q.parent != r { BelowTransitive(q.parent, r, p); BelowIsDeeper(q.parent, p); }
  }

  // ---------------------------------------------------------------- strings

  /** Position of the last '/', or -1 (std::string::rfind). */
  function LastSlash(s: string): (r: int)
    ensures -1 <= r < |s|
    ensures r >= 0 ==> s[r] == '/'
    ensures forall k :: r < k < |s| ==> s[k] != '/'
  {
    if s == [] then -1
    else if s[|s| - 1] == '/' then |s| - 1
    else LastSlash(s[..|s| - 1])
  }

  /** `basename`: the parent path and the last component, or nothing for a root. */
  function Basename(s: string): (r: Option<(string, Name)>)
    ensures r.Some? ==> s == r.value.0 + "/" + r.value.1 && |r.value.0| < |s|
    ensures r.None? <==> '/' !in s
  {
    var pos := LastSlash(s);
    if pos < 0 then None else Some((s[..pos], s[pos + 1..]))
  }

  function Parse(s: string): Path
    decreases |s|
  {
    match Basename(s)
    case None => Root(s)
    case Some((parent, name)) => Sub(Parse(parent), name)
  }

  function Format(p: Path): string {
    match p
    case Root(top) => top
    case Sub(parent, name) => Format(parent) + "/" + name
  }

  lemma {:induction false} SlashSplitIsUnique(a: string, m: Name, b: string, n: Name)
    requires a + "/" + m == b + "/" + n
    ensures a == b && m == n
  {
    var s := a + "/" + m;
    assert s[|a|] == '/' && s[|b|] == '/';
    if |a| < |b| { assert false; }
    if |b| < |a| { assert false; }
    assert a == s[..|a|] && b == (b + "/" + n)[..|b|];
    assert m == s[|a| + 1..] && n == (b + "/" + n)[|b| + 1..];
  }

  /** No two paths share a string and every string is a path. */
  lemma {:induction false} FormatParse(s: string)
    ensures Format(Parse(s)) == s
    decreases |s|
  {
    match Basename(s)
    case None =>
    case Some((parent, name)) => FormatParse(parent);
  }

  lemma {:induction false} ParseFormat(p: Path)
    ensures Parse(Format(p)) == p
  {
    match p
    case Root(_) =>
    case Sub(parent, name) =>
      var s := Format(p);
      assert s[|Format(parent)|] == '/';
      var b := Basename(s).value;
      SlashSplitIsUnique(b.0, b.1, Format(parent), name);
      ParseFormat(parent);
  }

  /** Climbing the chain is calling `basename`, and going down is appending "/" and a name. */
  lemma {:induction false} BasenameIsParse(s: string, c: Name)
    ensures Parse(s).Root? <==> Basename(s).None?
    ensures Basename(s).Some? ==> Parse(s) == Sub(Parse(Basename(s).value.0), Basename(s).value.1)
    ensures Parse(s + "/" + c) == Sub(Parse(s), c)
  {
    FormatParse(s);
    ParseFormat(Sub(Parse(s), c));
  }

  /** What is below a path continues its text with a slash. */
  lemma {:induction false} BelowContinues(q: Path, p: Path)
    requires Below(q, p)
    ensures Format(p) + "/" <= Format(q)
  {
    if q.parent != p { BelowContinues(q.parent, p); }
  }

  /** `store` drops one trailing '/' before it uses a path (path.back() needs a non-empty string). */
  function DropTrailingSlash(s: string): (r: string)
    requires s != ""
    ensures r + "/" == s || (r == s && s[|s| - 1] != '/')
  {
    if s[|s| - 1] == '/' then s[..|s| - 1] else s
  }

  /** With or without its trailing slash a path is the same one, and "/" is the root with the empty name. */
  lemma SamePathWithSlash(p: string)
    requires p != "" && p[|p| - 1] != '/'
    ensures DropTrailingSlash(p) == DropTrailingSlash(p + "/") == p
    ensures Parse(DropTrailingSlash("/")) == Root("")
  {
  }

  // ------------------------------------------------- iteration order of a name set

  predicate Less(a: string, b: string) {
    b != "" && (a == "" || a[0] < b[0] || (a[0] == b[0] && Less(a[1..], b[1..])))
  }

  lemma LessTotal(a: string, b: string)
    ensures a == b || Less(a, b) || Less(b, a)
    ensures !(Less(a, b) && Less(b, a))
    ensures !Less(a, a)
  {
    if a != "" && b != "" {
      LessTotal(a[1..], b[1..]);
      LessTotal(a[1..], a[1..]);
      assert a == [a[0]] + a[1..] && b == [b[0]] + b[1..];
    } else if a != "" {
      LessTotal(a[1..], a[1..]);
    }
  }

  lemma LessTransitive(a: string, b: string, c: string)
    requires Less(a, b) && Less(b, c)
    ensures Less(a, c)
  {
  }

  predicate IsLeast(m: Name, s: set<Name>) {
    m in s && forall x | x in s && x != m :: Less(m, x)
  }

  lemma {:induction false} LeastExists(s: set<Name>) returns (m: Name)
    requires s != {}
    ensures IsLeast(m, s)
    decreases |s|
  {
    m :| m in s;
    var rest := s - {m};
    if rest != {} {
      var n := LeastExists(rest);
      LessTotal(m, n);
      if Less(n, m) {
        m := n;
      } else {
        forall x | x in s && x != m ensures Less(m, x) {
          if x != n { LessTransitive(m, n, x); }
        }
      }
    }
  }

  lemma LeastIsUnique(s: set<Name>)
    requires s != {}
    ensures exists m :: IsLeast(m, s)
    ensures forall m, n | m in s && n in s && IsLeast(m, s) && IsLeast(n, s) :: m == n
  {
    var _ := LeastExists(s);
    forall m, n | m in s && n in s && IsLeast(m, s) && IsLeast(n, s) ensures m == n { LessTotal(m, n); }
  }

  /** First element of a std::set<std::string>. */
  function Least(s: set<Name>): (m: Name)
    requires s != {}
    ensures m in s
  {
    LeastIsUnique(s);
    var m :| m in s && IsLeast(m, s);
    m
  }
}
