/** Trimming white space off bytes that encode text in UTF-8, as bytes.TrimSpace does. */
module WhiteSpace {
  import opened Text

  predicate IsSpace(c: char) {
    c == '\t' || c == '\n' || c == '\r' || c == ' ' || c as int == 11 || c as int == 12
  }

  /** The encodings of the white-space characters beyond ASCII: U+0085, U+00A0, and with three
      bytes U+1680, U+2000 to U+200A, U+2028, U+2029, U+202F, U+205F and U+3000. */
  predicate Wide2(x: char, y: char) {
    x as int == 0xC2 && (y as int == 0x85 || y as int == 0xA0)
  }

  predicate Wide3(x: char, y: char, z: char) {
    var (a, b, c) := (x as int, y as int, z as int);
    || (a == 0xE1 && b == 0x9A && c == 0x80)
    || (a == 0xE2 && b == 0x80 && (0x80 <= c <= 0x8A || c == 0xA8 || c == 0xA9 || c == 0xAF))
    || (a == 0xE2 && b == 0x81 && c == 0x9F)
    || (a == 0xE3 && b == 0x80 && c == 0x80)
  }

  /** The length of the white-space character s begins with; 0 when it begins with none. */
  function Lead(s: string): (k: nat)
    ensures k <= |s|
  {
    if s != "" && IsSpace(s[0]) then 1
    else if |s| >= 2 && Wide2(s[0], s[1]) then 2
    else if |s| >= 3 && Wide3(s[0], s[1], s[2]) then 3
    else 0
  }

  /** The length of the white-space character s ends with; 0 when it ends with none. */
  function Trail(s: string): (k: nat)
    ensures k <= |s|
  {
    var n := |s|;
    if n > 0 && IsSpace(s[n - 1]) then 1
    else if n >= 2 && Wide2(s[n - 2], s[n - 1]) then 2
    else if n >= 3 && Wide3(s[n - 3], s[n - 2], s[n - 1]) then 3
    else 0
  }

  function TrimLeft(s: string): string {
    if Lead(s) > 0 then TrimLeft(s[Lead(s)..]) else s
  }

  function TrimRight(s: string): (r: string)
    ensures r <= s && Trail(r) == 0
  {
    if Trail(s) > 0 then TrimRight(s[..|s| - Trail(s)]) else s
  }

  function Trim(s: string): string {
    TrimLeft(TrimRight(s))
  }

  /** Nothing to trim. */
  predicate Tight(s: string) {
    Lead(s) == 0 && Trail(s) == 0
  }

  /** An ASCII character that is not white space. */
  predicate Ink(c: char) {
    c as int < 128 && !IsSpace(c)
  }

  lemma {:induction false} InkTight(s: string)
    requires s != "" ==> Ink(s[0]) && Ink(s[|s| - 1])
    ensures Tight(s)
  {
  }

  lemma {:induction false} InkLead(s: string)
    requires s != "" && Ink(s[0])
    ensures Lead(s) == 0 && TrimLeft(s) == s
  {
  }

  lemma {:induction false} TightTrim(s: string)
    requires Tight(s)
    ensures Trim(s) == s
  {
  }

  /** Ended by an ASCII character, which no white-space character goes on from. */
  predicate Ascii(s: string) {
    s == "" || s[|s| - 1] as int < 128
  }

  lemma {:induction false} TrailAppend(a: string, b: string)
    requires Ascii(a) && b != ""
    ensures Trail(a + b) == Trail(b)
  {
    var s, n, k := a + b, |a + b|, |b|;
    assert s[n - 1] == b[k - 1];
    assert k >= 2 ==> s[n - 2] == b[k - 2];
    assert k >= 3 ==> s[n - 3] == b[k - 3];
    assert a != "" ==> s[|a| - 1] == a[|a| - 1];
  }

  lemma {:induction false} TrimRightAppend(a: string, b: string)
    requires Ascii(a)
    ensures TrimRight(a + b) == if TrimRight(b) == "" then TrimRight(a) else a + TrimRight(b)
  {
    if b == "" {
      assert a + b == a;
    } else {
      TrailAppend(a, b);
      if Trail(b) > 0 {
        TrimStep(a, b, |b| - Trail(b));
        TrimRightAppend(a, b[..|b| - Trail(b)]);
      } else {
        assert TrimRight(b) == b && TrimRight(a + b) == a + b;
      }
    }
  }

  lemma {:induction false} TrimStep(a: string, b: string, n: nat)
    requires n < |b| && Trail(b) == |b| - n && Trail(a + b) == |b| - n
    ensures TrimRight(a + b) == TrimRight(a + b[..n]) && TrimRight(b) == TrimRight(b[..n])
  {
    CutBack(a, b, n);
    RightStep(a + b, a + b[..n]);
    RightStep(b, b[..n]);
  }

  lemma {:induction false} CutBack(a: string, b: string, n: nat)
    requires n <= |b|
    ensures (a + b)[..|a + b| - (|b| - n)] == a + b[..n]
  {
  }

  /** What ends in no white space does not when its front is cut off. */
  lemma {:induction false} TrailOfTail(s: string, k: nat)
    requires k <= |s| && Trail(s) == 0
    ensures Trail(s[k..]) == 0
  {
    var t, n := s[k..], |s|;
    assert forall i :: 0 <= i < |t| ==> t[i] == s[k + i];
  }

  /** A white-space character is not only at the front when nothing else follows. */
  lemma {:induction false} LeadIsTrail(s: string)
    requires s != "" && Lead(s) == |s|
    ensures Trail(s) > 0
  {
  }

  lemma {:induction false} TrimLeftKeepsEnd(s: string)
    requires Trail(s) == 0
    ensures Tight(TrimLeft(s)) && (TrimLeft(s) == "" <==> s == "")
  {
    if Lead(s) > 0 {
      var k := Lead(s);
      if k == |s| { LeadIsTrail(s); }
      TrailOfTail(s, k);
      TrimLeftKeepsEnd(s[k..]);
    }
  }

  lemma {:induction false} TrimTight(s: string)
    ensures Tight(Trim(s)) && (Trim(s) == "" <==> TrimRight(s) == "")
  {
    TrimLeftKeepsEnd(TrimRight(s));
  }

  lemma {:induction false} TrimNewline(s: string)
    ensures Trim(s + "\n") == Trim(s)
  {
    assert Trail(s + "\n") == 1;
    assert (s + "\n")[..|s|] == s;
  }

  lemma {:induction false} TrimLeftFree(s: string, c: char)
    requires !Has(s, c)
    ensures !Has(TrimLeft(s), c)
  {
    if Lead(s) > 0 {
      var t := s[Lead(s)..];
      forall i | 0 <= i < |t| ensures t[i] != c { assert t[i] == s[Lead(s) + i]; }
      TrimLeftFree(t, c);
    }
  }

  lemma {:induction false} TrimFree(s: string, c: char)
    requires !Has(s, c)
    ensures !Has(Trim(s), c)
  {
    var r := TrimRight(s);
    forall i | 0 <= i < |r| ensures r[i] != c { assert r[i] == s[i]; }
    TrimLeftFree(r, c);
  }

  // ---- either end first ----

  /** A white-space character in front stays there when one is cut off the end of a longer text. */
  lemma {:induction false} LeadKept(s: string)
    requires Lead(s) > 0 && Trail(s) > 0
    ensures Lead(s) == |s| == Trail(s) || (Lead(s) + Trail(s) <= |s| && Lead(s[..|s| - Trail(s)]) == Lead(s) && Trail(s[Lead(s)..]) == Trail(s))
  {
    Apart(s);
    if Lead(s) + Trail(s) <= |s| {
      LeadOf(s, |s| - Trail(s));
      TrailOf(s, Lead(s));
    }
  }

  /** Only the first byte of a white-space character is not a continuation byte. */
  predicate Continues(c: char) {
    0x80 <= c as int < 0xC0
  }

  lemma {:induction false} LeadBytes(s: string)
    ensures Lead(s) > 0 ==> !Continues(s[0]) && forall i :: 0 < i < Lead(s) ==> Continues(s[i])
  {
  }

  lemma {:induction false} TrailBytes(s: string)
    ensures var n := |s|; Trail(s) > 0 ==> !Continues(s[n - Trail(s)]) && forall i :: n - Trail(s) < i < n ==> Continues(s[i])
  {
  }

  /** Two white-space characters at the ends of a text are the same or do not overlap. */
  lemma {:induction false} Apart(s: string)
    requires Lead(s) > 0 && Trail(s) > 0
    ensures Lead(s) == |s| == Trail(s) || Lead(s) + Trail(s) <= |s|
  {
    LeadBytes(s);
    TrailBytes(s);
    assert |s| - Trail(s) == 0 || |s| - Trail(s) >= Lead(s);
  }

  lemma {:induction false} LeadOf(s: string, k: nat)
    requires 0 < Lead(s) <= k <= |s|
    ensures Lead(s[..k]) == Lead(s)
  {
    var t := s[..k];
    assert forall i :: 0 <= i < k ==> t[i] == s[i];
  }

  lemma {:induction false} TrailOf(s: string, k: nat)
    requires 0 < Trail(s) <= |s| - k
    ensures Trail(s[k..]) == Trail(s)
  {
    var t := s[k..];
    assert forall i :: 0 <= i < |t| ==> t[i] == s[k + i];
  }

  lemma {:induction false} LeadOfInit(s: string, k: nat)
    requires k <= |s| && Lead(s) == 0
    ensures Lead(s[..k]) == 0
  {
    var t := s[..k];
    assert forall i :: 0 <= i < k ==> t[i] == s[i];
  }

  predicate EitherFirst(s: string) {
    TrimRight(TrimLeft(s)) == Trim(s)
  }

  lemma {:induction false} OneEnd(s: string)
    requires Lead(s) == 0 || Trail(s) == 0
    ensures EitherFirst(s)
  {
    if Lead(s) == 0 { LeadOfInit(s, |TrimRight(s)|); } else { TrimLeftKeepsEnd(s); }
  }

  lemma {:induction false} LeftStep(s: string, t: string)
    requires Lead(s) > 0 && t == s[Lead(s)..]
    ensures TrimLeft(s) == TrimLeft(t)
  {
  }

  lemma {:induction false} RightStep(s: string, t: string)
    requires Trail(s) > 0 && t == s[..|s| - Trail(s)]
    ensures TrimRight(s) == TrimRight(t)
  {
  }

  /** One character off each end: the front first, or the back first. */
  lemma {:induction false} BothEnds(s: string) returns (a: string, b: string, m: string)
    requires Lead(s) > 0 && Trail(s) > 0
    ensures |a| < |s| && |b| < |s| && |m| < |s|
    ensures TrimLeft(s) == TrimLeft(a) && TrimRight(s) == TrimRight(b)
    ensures TrimRight(a) == TrimRight(m) && TrimLeft(b) == TrimLeft(m)
  {
    LeadKept(s);
    var k, j := Lead(s), Trail(s);
    if k == |s| {
      a, b, m := "", "", "";
      assert s[k..] == "" && s[..|s| - j] == "";
    } else {
      a, b, m := s[k..], s[..|s| - j], s[k..|s| - j];
      assert a[..|a| - j] == m && b[k..] == m;
      RightStep(a, m);
      LeftStep(b, m);
    }
    LeftStep(s, a);
    RightStep(s, b);
  }

  /** It does not matter which end is trimmed first. */
  lemma {:induction false} EitherEndFirst(s: string)
    ensures TrimRight(TrimLeft(s)) == TrimLeft(TrimRight(s))
    decreases |s|
  {
    if Lead(s) == 0 || Trail(s) == 0 {
      OneEnd(s);
    } else {
      var a, b, m := BothEnds(s);
      EitherEndFirst(a);
      EitherEndFirst(b);
      EitherEndFirst(m);
    }
  }
}
