/** String operations the core relies on: `String.prototype.trim`, the
    bearer-prefix replacement of the authentication middleware, ASCII lower
    casing and substring search for ILIKE, code-point ordering for ORDER BY,
    and decimal rendering of ids inside error messages. */
module Text {

  /** JavaScript's WhiteSpace and LineTerminator code points, which `trim`
      removes from both ends. */
  predicate IsSpace(c: char) {
    var n := c as int;
    n == 0x09 || n == 0x0A || n == 0x0B || n == 0x0C || n == 0x0D || n == 0x20
    || n == 0xA0 || n == 0x1680 || (0x2000 <= n <= 0x200A) || n == 0x2028
    || n == 0x2029 || n == 0x202F || n == 0x205F || n == 0x3000 || n == 0xFEFF
  }

  predicate AllSpace(s: string) {
    forall i :: 0 <= i < |s| ==> IsSpace(s[i])
  }

  /** Neither end of `s` is white space: `trim` leaves it alone. */
  predicate Trimmed(s: string) {
    s == [] || (!IsSpace(s[0]) && !IsSpace(s[|s| - 1]))
  }

  /** Length of the longest white-space prefix of `s`. */
  function LeadingSpace(s: string): (n: nat)
    ensures n <= |s|
    ensures AllSpace(s[..n])
    ensures n < |s| ==> !IsSpace(s[n])
  {
    if s == [] || !IsSpace(s[0]) then 0
    else
      var m := LeadingSpace(s[1..]);
      assert s[1..][..m] == s[1..m + 1];
      1 + m
  }

  /** Length of the longest white-space suffix of `s`. */
  function TrailingSpace(s: string): (n: nat)
    ensures n <= |s|
    ensures AllSpace(s[|s| - n..])
    ensures n < |s| ==> !IsSpace(s[|s| - 1 - n])
  {
    if s == [] || !IsSpace(s[|s| - 1]) then 0
    else
      var m := TrailingSpace(s[..|s| - 1]);
      assert s[..|s| - 1][|s| - 1 - m..] == s[|s| - 1 - m..|s| - 1];
      1 + m
  }

  /** `s.trim()`: the result has white space at neither end. */
  function Trim(s: string): (r: string)
    ensures Trimmed(r)
  {
    var i := LeadingSpace(s);
    var rest := s[i..];
    var k := TrailingSpace(rest);
    assert rest[..|rest| - k] == s[i..|s| - k];
    s[i..|s| - k]
  }

  /** `s` splits into a white-space prefix, `s.trim()` and a white-space
      suffix: trimming removes white space only. */
  lemma TrimRemovesOnlySpace(s: string)
    ensures exists i, j :: 0 <= i <= j <= |s| && Trim(s) == s[i..j] && AllSpace(s[..i]) && AllSpace(s[j..])
  {
    var i := LeadingSpace(s);
    var rest := s[i..];
    var k := TrailingSpace(rest);
    var j := |s| - k;
    assert i <= j && Trim(s) == s[i..j];
    assert AllSpace(s[j..]) by {
      assert s[j..] == rest[|rest| - k..];
    }
    assert AllSpace(s[..i]);
  }

  /** A string that already has white space at neither end is its own trim;
      in particular trimming twice is trimming once. */
  lemma TrimOfTrimmed(s: string)
    requires Trimmed(s)
    ensures Trim(s) == s
  {
    assert LeadingSpace(s) == 0;
    assert TrailingSpace(s) == 0;
  }

  lemma TrimIdempotent(s: string)
    ensures Trim(Trim(s)) == Trim(s)
  {
    TrimOfTrimmed(Trim(s));
  }

  /** The regular expression `^[Bb]earer ` matches a prefix of `h`. */
  predicate HasBearerPrefix(h: string) {
    |h| >= 7 && (h[0] == 'B' || h[0] == 'b') && h[1..7] == "earer "
  }

  /** `h.replace(/^[Bb]earer /, "")`: drops the seven-character prefix when it
      is there, and otherwise returns `h` unchanged. */
  function StripBearer(h: string): (r: string)
    ensures HasBearerPrefix(h) ==> h == h[..7] + r
    ensures !HasBearerPrefix(h) ==> r == h
  {
    if HasBearerPrefix(h) then h[7..] else h
  }

  lemma StripBearerOf(t: string)
    ensures StripBearer("Bearer " + t) == t
    ensures StripBearer("bearer " + t) == t
  {
    assert ("Bearer " + t)[7..] == t;
    assert ("bearer " + t)[7..] == t;
  }

  /** The token the middleware passes to `jwt.verify`: the header with one
      bearer prefix removed, then trimmed. */
  function ExtractToken(header: string): (token: string)
    ensures Trimmed(token)
    ensures HasBearerPrefix(header) ==> token == Trim(header[7..])
    ensures !HasBearerPrefix(header) ==> token == Trim(header)
  {
    Trim(StripBearer(header))
  }

  /** A token with white space at neither end survives extraction from
      `"Bearer " + token` and from `"bearer " + token` unchanged. */
  lemma ExtractTokenOf(t: string)
    requires Trimmed(t)
    ensures ExtractToken("Bearer " + t) == t
    ensures ExtractToken("bearer " + t) == t
  {
    StripBearerOf(t);
    TrimOfTrimmed(t);
  }

  /** ASCII lower casing (Unicode case folding is not modelled). */
  function LowerChar(c: char): char {
    if 'A' <= c <= 'Z' then (c as int + 32) as char else c
  }

  function Lower(s: string): (r: string)
    ensures |r| == |s|
    ensures forall i :: 0 <= i < |s| ==> r[i] == LowerChar(s[i])
  {
    seq(|s|, i requires 0 <= i < |s| => LowerChar(s[i]))
  }

  /** `s.startsWith(p)`. */
  predicate StartsWith(s: string, p: string) {
    |p| <= |s| && s[..|p|] == p
  }

  /** Substring search, scanning `s` from the left. */
  predicate Contains(s: string, p: string)
    decreases |s|
  {
    StartsWith(s, p) || (s != [] && Contains(s[1..], p))
  }

  /** `p` occurs in `s` at offset `i`. */
  predicate OccursAt(p: string, s: string, i: int) {
    0 <= i <= |s| - |p| && s[i..i + |p|] == p
  }

  /** `p` occurs in `s` at some offset. */
  ghost predicate OccursIn(p: string, s: string) {
    exists i :: OccursAt(p, s, i)
  }

  /** The scan finds `p` exactly when `p` occurs in `s`. */
  lemma {:induction false} ContainsIffOccurs(s: string, p: string)
    ensures Contains(s, p) <==> OccursIn(p, s)
    decreases |s|
  {
    if StartsWith(s, p) {
      assert OccursAt(p, s, 0);
    } else if s != [] {
      ContainsIffOccurs(s[1..], p);
      assert OccursIn(p, s[1..]) ==> OccursIn(p, s) by {
        if OccursIn(p, s[1..]) {
          var i :| OccursAt(p, s[1..], i);
          assert s[1..][i..i + |p|] == s[i + 1..i + 1 + |p|];
          assert OccursAt(p, s, i + 1);
        }
      }
      assert OccursIn(p, s) ==> OccursIn(p, s[1..]) by {
        if OccursIn(p, s) {
          var i :| OccursAt(p, s, i);
          assert i != 0;
          assert s[1..][i - 1..i - 1 + |p|] == p;
          assert OccursAt(p, s[1..], i - 1);
        }
      }
    }
  }

  /** The empty pattern is found in every string. */
  lemma ContainsEmpty(s: string)
    ensures Contains(s, "")
  {
    assert StartsWith(s, "");
  }

  /** Code-point lexicographic order (the "C" collation). */
  predicate LexLe(a: string, b: string) {
    a == [] || (b != [] && (a[0] < b[0] || (a[0] == b[0] && LexLe(a[1..], b[1..]))))
  }

  lemma {:induction false} LexLeTotal(a: string, b: string)
    ensures LexLe(a, b) || LexLe(b, a)
  {
    if a != [] && b != [] && a[0] == b[0] {
      LexLeTotal(a[1..], b[1..]);
    }
  }

  lemma {:induction false} LexLeTransitive(a: string, b: string, c: string)
    requires LexLe(a, b) && LexLe(b, c)
    ensures LexLe(a, c)
  {
    if a != [] && a[0] == b[0] && b[0] == c[0] {
      LexLeTransitive(a[1..], b[1..], c[1..]);
    }
  }

  function DigitChar(d: nat): char
    requires d < 10
  {
    "0123456789"[d]
  }

  function NatToString(n: nat): (r: string)
    ensures |r| > 0
    decreases n
  {
    if n < 10 then [DigitChar(n)] else NatToString(n / 10) + [DigitChar(n % 10)]
  }

  /** Decimal rendering of an integer, as a template literal prints it. */
  function IntToString(n: int): string {
    if n < 0 then "-" + NatToString(-n) else NatToString(n)
  }
}
