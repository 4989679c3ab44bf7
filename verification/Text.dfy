/** Options, results and the string operations the modelled code relies on.
    A Go string is a byte sequence; here one `char` stands for one byte. */
module Options {
  datatype Option<+T> = None | Some(value: T)

  datatype Result<+T, +E> = Ok(value: T) | Err(error: E)

  /** A sequence put in front of an optional one. */
  function Before<T>(a: seq<T>, b: Option<seq<T>>): Option<seq<T>> {
    if b.None? then None else Some(a + b.value)
  }

  lemma {:induction false} BeforeNone<T>(b: Option<seq<T>>)
    ensures Before([], b) == b
  {
    if b.Some? { assert [] + b.value == b.value; }
  }

  lemma {:induction false} BeforeMore<T>(a: seq<T>, x: T, b: Option<seq<T>>)
    ensures Before(a + [x], b) == Before(a, Before([x], b))
  {
    if b.Some? { assert (a + [x]) + b.value == a + ([x] + b.value); }
  }

  /** A sequence put in front of a result. */
  function BeforeOk<T, E>(a: seq<T>, r: Result<seq<T>, E>): Result<seq<T>, E> {
    if r.Err? then r else Ok(a + r.value)
  }

  lemma {:induction false} BeforeOkNone<T, E>(r: Result<seq<T>, E>)
    ensures BeforeOk([], r) == r
  {
    if r.Ok? { assert [] + r.value == r.value; }
  }

  lemma {:induction false} BeforeOkTwice<T, E>(a: seq<T>, b: seq<T>, r: Result<seq<T>, E>)
    ensures BeforeOk(a + b, r) == BeforeOk(a, BeforeOk(b, r))
  {
    if r.Ok? { assert (a + b) + r.value == a + (b + r.value); }
  }
}

module Text {

  predicate IsByte(c: char) {
    (c as int) < 256
  }

  predicate Bytes(s: string) {
    forall i :: 0 <= i < |s| ==> IsByte(s[i])
  }

  type ByteString = s: string | Bytes(s)

  predicate HasPrefix(s: string, p: string) {
    p <= s
  }

  predicate HasSuffix(s: string, x: string) {
    |x| <= |s| && s[|s| - |x|..] == x
  }

  /** The number of slashes `s` starts with. */
  function Slashes(s: string): (k: nat)
    ensures k <= |s|
    ensures k < |s| ==> s[k] != '/'
  {
    if s == "" || s[0] != '/' then 0
    else 1 + Slashes(s[1..])
  }

  function SkipSlashes(s: string): (r: string)
    ensures r == "" || r[0] != '/'
  {
    s[Slashes(s)..]
  }

  /** The length of the path segment `s` starts with: everything up to the next slash. */
  function SegLen(s: string): (k: nat)
    ensures k <= |s|
    ensures k < |s| ==> s[k] == '/'
  {
    if s == "" || s[0] == '/' then 0
    else 1 + SegLen(s[1..])
  }

  function StripTrailing(s: string): (r: string)
    ensures r <= s
    ensures r == "" || r[|r| - 1] != '/'
    ensures forall i :: |r| <= i < |s| ==> s[i] == '/'
  {
    if s == "" || s[|s| - 1] != '/' then s
    else StripTrailing(s[..|s| - 1])
  }

  lemma {:induction false} SlashesAll(s: string)
    ensures forall i :: 0 <= i < Slashes(s) ==> s[i] == '/'
  {
    if s != "" && s[0] == '/' { SlashesAll(s[1..]); }
  }

  lemma {:induction false} SegLenAll(s: string)
    ensures forall i :: 0 <= i < SegLen(s) ==> s[i] != '/'
  {
    if s != "" && s[0] != '/' { SegLenAll(s[1..]); }
  }

  /** Only slashes (or nothing) are left. */
  predicate OnlySlashes(s: string) {
    forall i :: 0 <= i < |s| ==> s[i] == '/'
  }

  predicate NoSlash(s: string) {
    forall i :: 0 <= i < |s| ==> s[i] != '/'
  }

  /** Not ended by a slash. */
  predicate Untrailed(s: string) {
    s == "" || s[|s| - 1] != '/'
  }

  /** A segment boundary: the end of the path or a slash. */
  predicate Boundary(s: string) {
    s == "" || s[0] == '/'
  }

  lemma {:induction false} StripTrailingEmpty(s: string)
    ensures StripTrailing(s) == "" <==> OnlySlashes(s)
    ensures SkipSlashes(s) == "" <==> OnlySlashes(s)
  {
    if StripTrailing(s) != "" {
      var r := StripTrailing(s);
      assert s[|r| - 1] == r[|r| - 1];
    }
    SlashesAll(s);
    if SkipSlashes(s) != "" {
      assert s[Slashes(s)] != '/';
    }
  }

  lemma {:induction false} SlashesAre(s: string, k: nat)
    requires k <= |s|
    requires forall i :: 0 <= i < k ==> s[i] == '/'
    requires k < |s| ==> s[k] != '/'
    ensures Slashes(s) == k
  {
    if k > 0 {
      SlashesAre(s[1..], k - 1);
    }
  }

  lemma {:induction false} SegLenIs(s: string, k: nat)
    requires k <= |s|
    requires forall i :: 0 <= i < k ==> s[i] != '/'
    requires k < |s| ==> s[k] == '/'
    ensures SegLen(s) == k
  {
    if k > 0 {
      SegLenIs(s[1..], k - 1);
    }
  }

  // ---- searching for a character ----

  predicate Has(s: string, c: char) {
    exists i :: 0 <= i < |s| && s[i] == c
  }

  lemma {:induction false} HasConcat(a: string, b: string, c: char)
    ensures Has(a + b, c) <==> Has(a, c) || Has(b, c)
  {
    if Has(a, c) { var i :| 0 <= i < |a| && a[i] == c; assert (a + b)[i] == c; }
    if Has(b, c) { var i :| 0 <= i < |b| && b[i] == c; assert (a + b)[|a| + i] == c; }
  }

  /** The index of the first c, as strings.Index gives it; |s| when there is none. */
  function IndexOf(s: string, c: char): (k: nat)
    ensures k <= |s|
    ensures k < |s| ==> s[k] == c
  {
    if s == "" || s[0] == c then 0 else 1 + IndexOf(s[1..], c)
  }

  lemma {:induction false} IndexOfIs(s: string, c: char, k: nat)
    requires k <= |s| && (k < |s| ==> s[k] == c)
    requires forall i :: 0 <= i < k ==> s[i] != c
    ensures IndexOf(s, c) == k
  {
    if k > 0 { IndexOfIs(s[1..], c, k - 1); }
  }

  lemma {:induction false} IndexOfBefore(s: string, c: char)
    ensures forall i :: 0 <= i < IndexOf(s, c) ==> s[i] != c
  {
    if s != "" && s[0] != c { IndexOfBefore(s[1..], c); }
  }

  /** What stands before the first c is the one text without c that the string is, or begins
      with when c follows. */
  lemma {:induction false} CutExactly(s: string, c: char, n: string)
    ensures s[..IndexOf(s, c)] == n <==> !Has(n, c) && (s == n || n + [c] <= s)
  {
    var k := IndexOf(s, c);
    IndexOfBefore(s, c);
    if k < |s| { assert s[..k] + [c] == s[..k + 1]; }
    if !Has(n, c) {
      if s == n {
        IndexOfIs(s, c, |s|);
      } else if n + [c] <= s {
        assert s[|n|] == (n + [c])[|n|];
        forall i | 0 <= i < |n| ensures s[i] != c { assert s[i] == (n + [c])[i] == n[i]; }
        IndexOfIs(s, c, |n|);
        assert s[..|n|] == (n + [c])[..|n|];
      }
    }
  }

  /** The index of the last c; -1 when there is none. */
  function LastIndexOf(s: string, c: char): (r: int)
    ensures -1 <= r < |s|
    ensures r >= 0 ==> s[r] == c
    ensures forall i :: r < i < |s| ==> s[i] != c
  {
    if s == "" then -1
    else if s[|s| - 1] == c then |s| - 1
    else LastIndexOf(s[..|s| - 1], c)
  }
}
