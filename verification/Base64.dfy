/** Standard base64 with padding (section 4 of RFC 4648).  Bytes are characters below 256. */
module Base64 {
  import opened Options
  import opened Text

  predicate InAlphabet(c: char) {
    'A' <= c <= 'Z' || 'a' <= c <= 'z' || '0' <= c <= '9' || c == '+' || c == '/'
  }

  /** The character for six bits. */
  function Symbol(v: nat): (c: char)
    requires v < 64
    ensures InAlphabet(c) && SymbolValue(c) == v
  {
    if v < 26 then 'A' + (v as char)
    else if v < 52 then 'a' + ((v - 26) as char)
    else if v < 62 then '0' + ((v - 52) as char)
    else if v == 62 then '+' else '/'
  }

  function SymbolValue(c: char): (v: nat)
    requires InAlphabet(c)
    ensures v < 64
  {
    if 'A' <= c <= 'Z' then (c as int) - ('A' as int)
    else if 'a' <= c <= 'z' then (c as int) - ('a' as int) + 26
    else if '0' <= c <= '9' then (c as int) - ('0' as int) + 52
    else if c == '+' then 62 else 63
  }

  /** Three bytes as four characters. */
  function Quad(a: nat, b: nat, c: nat): (q: string)
    requires a < 256 && b < 256 && c < 256
    ensures |q| == 4 && forall i :: 0 <= i < 4 ==> InAlphabet(q[i])
  {
    [Symbol(a / 4), Symbol(a % 4 * 16 + b / 16), Symbol(b % 16 * 4 + c / 64), Symbol(c % 64)]
  }

  function FirstQuad(s: string): (q: string)
    requires Bytes(s) && |s| > 2
    ensures |q| == 4 && forall i :: 0 <= i < 4 ==> InAlphabet(q[i])
  {
    Quad(s[0] as int, s[1] as int, s[2] as int)
  }

  /** One or two bytes, padded. */
  function LastQuad(s: string): (q: string)
    requires Bytes(s) && 1 <= |s| <= 2
    ensures |q| == 4 && Printable(q)
  {
    if |s| == 1 then
      var q := Quad(s[0] as int, 0, 0);
      [q[0], q[1], '=', '=']
    else
      var q := Quad(s[0] as int, s[1] as int, 0);
      [q[0], q[1], q[2], '=']
  }

  /** Only characters of the alphabet and padding. */
  predicate Printable(s: string) {
    forall i :: 0 <= i < |s| ==> InAlphabet(s[i]) || s[i] == '='
  }

  function EncodedLen(n: nat): nat {
    (n + 2) / 3 * 4
  }

  function DecodedLen(n: nat): nat {
    n / 4 * 3
  }

  lemma {:induction false} EncodedLenStep(n: nat)
    requires n > 2
    ensures EncodedLen(n) == 4 + EncodedLen(n - 3)
  {
    assert (n + 2) / 3 == (n - 3 + 2) / 3 + 1;
  }

  function Encode(s: string): (r: string)
    requires Bytes(s)
    ensures |r| == EncodedLen(|s|)
  {
    if s == "" then ""
    else if |s| <= 2 then LastQuad(s)
    else
      EncodedLenStep(|s|);
      FirstQuad(s) + Encode(s[3..])
  }

  lemma {:induction false} EncodePrintable(s: string)
    requires Bytes(s)
    ensures Printable(Encode(s))
  {
    if |s| > 2 {
      EncodePrintable(s[3..]);
      PrintableConcat(FirstQuad(s), Encode(s[3..]));
    }
  }

  lemma {:induction false} PrintableConcat(a: string, b: string)
    requires Printable(a) && Printable(b)
    ensures Printable(a + b)
  {
  }

  /** The three bytes of four characters. */
  function Triple(p: char, q: char, r: char, s: char): (t: string)
    requires InAlphabet(p) && InAlphabet(q) && InAlphabet(r) && InAlphabet(s)
    ensures |t| == 3 && Bytes(t)
  {
    var (v, w, x, y) := (SymbolValue(p), SymbolValue(q), SymbolValue(r), SymbolValue(s));
    [(v * 4 + w / 16) as char, (w % 16 * 16 + x / 4) as char, (x % 4 * 64 + y) as char]
  }

  lemma {:induction false} TripleQuad(a: nat, b: nat, c: nat)
    requires a < 256 && b < 256 && c < 256
    ensures var q := Quad(a, b, c); Triple(q[0], q[1], q[2], q[3]) == [a as char, b as char, c as char]
  {
    SixBits(a, b, c);
    var (v, w, x, y) := (a / 4, a % 4 * 16 + b / 16, b % 16 * 4 + c / 64, c % 64);
    assert Quad(a, b, c) == [Symbol(v), Symbol(w), Symbol(x), Symbol(y)];
  }

  lemma {:induction false} SixBits(a: nat, b: nat, c: nat)
    requires a < 256 && b < 256 && c < 256
    ensures var (v, w, x, y) := (a / 4, a % 4 * 16 + b / 16, b % 16 * 4 + c / 64, c % 64);
      v * 4 + w / 16 == a && w % 16 * 16 + x / 4 == b && x % 4 * 64 + y == c
  {
  }

  /** Line breaks are skipped wherever they stand. */
  function Unbroken(s: string): string {
    if s == "" then ""
    else if s[0] == '\n' || s[0] == '\r' then Unbroken(s[1..])
    else [s[0]] + Unbroken(s[1..])
  }

  /** The last four characters, which may be padded. */
  function DecodeLast(q: string): (r: Option<string>)
    requires |q| == 4
    ensures r.Some? ==> Bytes(r.value) && |r.value| <= 3
  {
    if !InAlphabet(q[0]) || !InAlphabet(q[1]) then None
    else if q[2] == '=' then
      if q[3] == '=' then Some(Triple(q[0], q[1], 'A', 'A')[..1]) else None
    else if !InAlphabet(q[2]) then None
    else if q[3] == '=' then Some(Triple(q[0], q[1], q[2], 'A')[..2])
    else if !InAlphabet(q[3]) then None
    else Some(Triple(q[0], q[1], q[2], q[3]))
  }

  predicate Full(q: string) {
    |q| == 4 && forall i :: 0 <= i < 4 ==> InAlphabet(q[i])
  }

  function DecodeQuads(s: string): (r: Option<string>)
    ensures r.Some? ==> Bytes(r.value) && |r.value| <= DecodedLen(|s|)
  {
    if s == "" then Some("")
    else if |s| < 4 then None
    else if |s| == 4 then DecodeLast(s)
    else if !Full(s[..4]) then None
    else match DecodeQuads(s[4..])
      case None => None
      case Some(rest) => Some(Triple(s[0], s[1], s[2], s[3]) + rest)
  }

  function Decode(s: string): Option<string> {
    DecodeQuads(Unbroken(s))
  }

  lemma {:induction false} UnbrokenShorter(s: string)
    ensures |Unbroken(s)| <= |s|
  {
    if s != "" { UnbrokenShorter(s[1..]); }
  }

  /** DecodedLen is enough room. */
  lemma {:induction false} DecodeFits(s: string)
    ensures Decode(s).Some? ==> |Decode(s).value| <= DecodedLen(|s|)
  {
    UnbrokenShorter(s);
  }

  lemma {:induction false} UnbrokenSame(s: string)
    requires forall i :: 0 <= i < |s| ==> s[i] != '\n' && s[i] != '\r'
    ensures Unbroken(s) == s
  {
    if s != "" { UnbrokenSame(s[1..]); }
  }

  lemma {:induction false} OneByte(a: char)
    requires IsByte(a)
    ensures DecodeLast(LastQuad([a])) == Some([a])
  {
    TripleQuad(a as int, 0, 0);
    var q := Quad(a as int, 0, 0);
    assert q[2] == Symbol(0) == 'A' && q[3] == 'A';
    assert Triple(q[0], q[1], 'A', 'A')[..1] == [a];
  }

  lemma {:induction false} TwoBytes(a: char, b: char)
    requires IsByte(a) && IsByte(b)
    ensures DecodeLast(LastQuad([a, b])) == Some([a, b])
  {
    TripleQuad(a as int, b as int, 0);
    var q := Quad(a as int, b as int, 0);
    assert q[3] == Symbol(0) == 'A';
    assert Triple(q[0], q[1], q[2], 'A')[..2] == [a, b];
  }

  lemma {:induction false} FewBytes(s: string)
    requires Bytes(s) && 1 <= |s| <= 2
    ensures DecodeLast(LastQuad(s)) == Some(s)
  {
    if |s| == 1 {
      assert s == [s[0]];
      OneByte(s[0]);
    } else {
      assert s == [s[0], s[1]];
      TwoBytes(s[0], s[1]);
    }
  }

  lemma {:induction false} FirstTriple(s: string)
    requires Bytes(s) && |s| > 2
    ensures var q := FirstQuad(s); Triple(q[0], q[1], q[2], q[3]) == s[..3]
  {
    TripleQuad(s[0] as int, s[1] as int, s[2] as int);
  }

  lemma {:induction false} FullLast(q: string)
    requires Full(q)
    ensures DecodeLast(q) == Some(Triple(q[0], q[1], q[2], q[3]))
  {
  }

  lemma {:induction false} QuadFirst(q: string, e: string)
    requires Full(q) && DecodeQuads(e).Some?
    ensures DecodeQuads(q + e) == Some(Triple(q[0], q[1], q[2], q[3]) + DecodeQuads(e).value)
  {
    var s := q + e;
    assert s[4..] == e && s[..4] == q;
    if e == "" {
      FullLast(q);
      assert s == q;
      var t := Triple(q[0], q[1], q[2], q[3]);
      assert t + "" == t;
    } else {
      QuadMore(s);
    }
  }

  lemma {:induction false} QuadMore(s: string)
    requires |s| > 4 && Full(s[..4]) && DecodeQuads(s[4..]).Some?
    ensures DecodeQuads(s) == Some(Triple(s[0], s[1], s[2], s[3]) + DecodeQuads(s[4..]).value)
  {
  }

  lemma {:induction false} QuadsRoundTrip(s: string)
    requires Bytes(s)
    ensures DecodeQuads(Encode(s)) == Some(s)
  {
    if |s| > 2 {
      QuadsRoundTrip(s[3..]);
      QuadFirst(FirstQuad(s), Encode(s[3..]));
      FirstTriple(s);
      assert s[..3] + s[3..] == s;
    } else if s != "" {
      FewBytes(s);
    }
  }

  /** Decoding gives back what was encoded, whatever the bytes. */
  lemma {:induction false} RoundTrip(s: string)
    requires Bytes(s)
    ensures Decode(Encode(s)) == Some(s)
  {
    EncodePrintable(s);
    UnbrokenSame(Encode(s));
    QuadsRoundTrip(s);
  }

  // ---- which texts decode, and to which bits ----

  /** The alphabet: capital letters, small letters, digits, plus and slash. */
  lemma {:induction false} AlphabetIs(v: nat)
    requires v < 63
    ensures Symbol(0) == 'A' && Symbol(26) == 'a' && Symbol(52) == '0' && Symbol(62) == '+' && Symbol(63) == '/'
    ensures v != 25 && v != 51 && v < 61 ==> Symbol(v + 1) as int == Symbol(v) as int + 1
  {
  }

  /** Three bytes and four characters are the same 24 bits. */
  lemma {:induction false} QuadBits(a: nat, b: nat, c: nat)
    requires a < 256 && b < 256 && c < 256
    ensures var q := Quad(a, b, c);
      ((SymbolValue(q[0]) * 64 + SymbolValue(q[1])) * 64 + SymbolValue(q[2])) * 64 + SymbolValue(q[3]) == (a * 256 + b) * 256 + c
  {
    var (v, w, x, y) := (a / 4, a % 4 * 16 + b / 16, b % 16 * 4 + c / 64, c % 64);
    assert Quad(a, b, c) == [Symbol(v), Symbol(w), Symbol(x), Symbol(y)];
    SixBits(a, b, c);
  }

  /** Characters of the alphabet in fours; the last two may be padding, the last one first. */
  predicate Padded(u: string) {
    && |u| % 4 == 0
    && forall i :: 0 <= i < |u| ==> InAlphabet(u[i]) || (u[i] == '=' && i >= |u| - 2 && u[|u| - 1] == '=')
  }

  lemma {:induction false} QuadsExactly(u: string)
    ensures DecodeQuads(u).Some? <==> Padded(u)
  {
    if |u| > 4 {
      QuadsExactly(u[4..]);
      PaddedTail(u);
    }
  }

  lemma {:induction false} PaddedTail(u: string)
    requires |u| > 4
    ensures Padded(u) <==> Full(u[..4]) && Padded(u[4..])
  {
    var t := u[4..];
    assert forall i :: 0 <= i < |t| ==> t[i] == u[4 + i];
    if Full(u[..4]) && Padded(t) {
      assert |t| >= 4;
      forall i | 0 <= i < |u| ensures InAlphabet(u[i]) || (u[i] == '=' && i >= |u| - 2 && u[|u| - 1] == '=') {
        if i < 4 { assert u[..4][i] == u[i]; } else { assert t[i - 4] == u[i] && t[|t| - 1] == u[|u| - 1]; }
      }
    }
    if Padded(u) {
      assert |u| >= 8;
      forall i | 0 <= i < |t| ensures InAlphabet(t[i]) || (t[i] == '=' && i >= |t| - 2 && t[|t| - 1] == '=') {
        assert u[4 + i] == t[i];
      }
    }
  }

  /** A text decodes exactly when, line breaks aside, it is padded base64. */
  lemma {:induction false} DecodesExactly(s: string)
    ensures Decode(s).Some? <==> Padded(Unbroken(s))
  {
    QuadsExactly(Unbroken(s));
  }
}
