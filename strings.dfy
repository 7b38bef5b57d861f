/**
 * The Python `str` operations the core relies on: `isalpha`, `lower`,
 * `isspace`, `strip()`, `split('\t')[0]`, `split()`, slicing from an index,
 * prefix tests and the code-point order `<` used by `sorted`.
 *
 * Character classes follow Python within Latin-1 (code points 0..255),
 * the encoding the lexicon is read in; characters above Latin-1 count as
 * neither letters nor whitespace and are left unchanged by lowering.
 */
module Strings {
  import opened Wrappers

  type String = seq<char>

  /** `c.isspace()` for a Latin-1 character. */
  predicate IsSpace(c: char) {
    var n := c as int;
    n == 0x20 || 0x09 <= n <= 0x0D || 0x1C <= n <= 0x1F || n == 0x85 || n == 0xA0
  }

  /** `c.isalpha()` for a Latin-1 character: ASCII letters and the Latin-1 letters. */
  predicate IsAlphaChar(c: char) {
    var n := c as int;
    || 0x41 <= n <= 0x5A || 0x61 <= n <= 0x7A
    || n == 0xAA || n == 0xB5 || n == 0xBA
    || (0xC0 <= n <= 0xFF && n != 0xD7 && n != 0xF7)
  }

  /** `c.lower()` for a Latin-1 character: upper-case letters map to their lower case. */
  function LowerChar(c: char): (d: char)
    ensures IsAlphaChar(d) == IsAlphaChar(c)
    ensures IsSpace(d) == IsSpace(c)
  {
    var n := c as int;
    if 0x41 <= n <= 0x5A || (0xC0 <= n <= 0xDE && n != 0xD7) then (n + 0x20) as char else c
  }

  lemma LowerCharIdempotent(c: char)
    ensures LowerChar(LowerChar(c)) == LowerChar(c)
  {
  }

  /** `s.isalpha()`: non-empty and every character a letter. */
  predicate IsAlpha(s: String) {
    |s| > 0 && forall k :: 0 <= k < |s| ==> IsAlphaChar(s[k])
  }

  predicate AllSpace(s: String) {
    forall k :: 0 <= k < |s| ==> IsSpace(s[k])
  }

  predicate NoSpace(s: String) {
    forall k :: 0 <= k < |s| ==> !IsSpace(s[k])
  }

  /** `s.lower()`, character by character. */
  function Lower(s: String): (r: String)
    ensures |r| == |s|
  {
    if s == [] then [] else [LowerChar(s[0])] + Lower(s[1..])
  }

  /** Lowering maps every character through the Latin-1 lower-case mapping, in place. */
  lemma {:induction false} LowerChars(s: String)
    ensures forall k :: 0 <= k < |s| ==> Lower(s)[k] == LowerChar(s[k])
  {
    if s != [] {
      LowerChars(s[1..]);
      forall k | 1 <= k < |s| ensures Lower(s)[k] == LowerChar(s[k]) {
        assert Lower(s)[k] == Lower(s[1..])[k - 1] && s[1..][k - 1] == s[k];
      }
    }
  }

  /** Lowering twice is lowering once: a lowered string is all lower case. */
  lemma LowerIdempotent(s: String)
    ensures Lower(Lower(s)) == Lower(s)
  {
    LowerChars(s);
    LowerChars(Lower(s));
    forall k | 0 <= k < |s| ensures Lower(Lower(s))[k] == Lower(s)[k] {
      LowerCharIdempotent(s[k]);
    }
  }

  /** Lowering neither creates nor destroys letters, so `isalpha` is unaffected. */
  lemma LowerKeepsAlpha(s: String)
    ensures IsAlpha(Lower(s)) <==> IsAlpha(s)
  {
    LowerChars(s);
    if IsAlpha(Lower(s)) {
      forall k | 0 <= k < |s| ensures IsAlphaChar(s[k]) {
        assert IsAlphaChar(Lower(s)[k]);
      }
    }
  }

  /** A string that `lower()` changes is never the result of a `lower()`. */
  lemma {:induction false} NotLowerNeverMatched(w: String, x: String)
    requires Lower(w) != w
    ensures Lower(x) != w
  {
    LowerIdempotent(x);
  }

  /** `s.lstrip()`. */
  function LStrip(s: String): (r: String)
    ensures |r| <= |s|
    ensures r != [] ==> !IsSpace(r[0])
  {
    if s != [] && IsSpace(s[0]) then LStrip(s[1..]) else s
  }

  /** `lstrip()` removes a leading run of whitespace and keeps the rest. */
  lemma {:induction false} LStripSpec(s: String)
    ensures LStrip(s) == s[|s| - |LStrip(s)|..]
    ensures AllSpace(s[..|s| - |LStrip(s)|])
  {
    if s != [] && IsSpace(s[0]) {
      var r := LStrip(s[1..]);
      LStripSpec(s[1..]);
      assert s[1..][|s| - 1 - |r|..] == s[|s| - |r|..];
      assert s[..|s| - |r|] == [s[0]] + s[1..][..|s| - 1 - |r|];
    }
  }

  /** `s.rstrip()`. */
  function RStrip(s: String): (r: String)
    ensures |r| <= |s|
    ensures r != [] ==> !IsSpace(r[|r| - 1])
  {
    if s != [] && IsSpace(s[|s| - 1]) then RStrip(s[..|s| - 1]) else s
  }

  /** `rstrip()` removes a trailing run of whitespace and keeps the rest. */
  lemma {:induction false} RStripSpec(s: String)
    ensures RStrip(s) == s[..|RStrip(s)|]
    ensures AllSpace(s[|RStrip(s)|..])
  {
    if s != [] && IsSpace(s[|s| - 1]) {
      var t := s[..|s| - 1];
      var r := RStrip(t);
      RStripSpec(t);
      assert t[..|r|] == s[..|r|];
      assert s[|r|..] == t[|r|..] + [s[|s| - 1]];
    }
  }

  /** `s.strip()`. */
  function Strip(s: String): (r: String)
    ensures |r| <= |s|
  {
    RStrip(LStrip(s))
  }

  /** `strip()` leaves nothing exactly from whitespace; otherwise its result starts and ends with a non-space, and a string without whitespace is unchanged. */
  lemma StripSpec(s: String)
    ensures Strip(s) == [] <==> AllSpace(s)
    ensures Strip(s) != [] ==> !IsSpace(Strip(s)[0]) && !IsSpace(Strip(s)[|Strip(s)| - 1])
    ensures NoSpace(s) ==> Strip(s) == s
  {
    var l := LStrip(s);
    var r := RStrip(l);
    LStripSpec(s);
    RStripSpec(l);
    var lead := s[..|s| - |l|];
    assert s == lead + l;
    if r != [] {
      assert r[0] == l[0];
    }
    if r == [] {
      assert AllSpace(l) by { assert l[|r|..] == l; }
      assert s == lead;
    }
  }

  /** `s.split('\t')[0]`: everything before the first tab (the whole string if it has none). */
  function FirstField(s: String): (r: String)
    ensures |r| <= |s|
  {
    if s == [] || s[0] == '\t' then [] else [s[0]] + FirstField(s[1..])
  }

  /** The first column is a prefix without tabs, ending at the first tab when there is one. */
  lemma {:induction false} FirstFieldSpec(s: String)
    ensures FirstField(s) <= s
    ensures '\t' !in FirstField(s)
    ensures |FirstField(s)| < |s| ==> s[|FirstField(s)|] == '\t'
  {
    if s != [] && s[0] != '\t' {
      FirstFieldSpec(s[1..]);
      assert s == [s[0]] + s[1..];
    }
  }

  /** The longest prefix of `s` without whitespace. */
  function Token(s: String): (r: String)
    ensures |r| <= |s|
    ensures s != [] && !IsSpace(s[0]) ==> r != []
  {
    if s == [] || IsSpace(s[0]) then [] else [s[0]] + Token(s[1..])
  }

  /** A token is a whitespace-free prefix that stops only at whitespace or the end. */
  lemma {:induction false} TokenSpec(s: String)
    ensures Token(s) == s[..|Token(s)|]
    ensures NoSpace(Token(s))
    ensures |Token(s)| < |s| ==> IsSpace(s[|Token(s)|])
  {
    if s != [] && !IsSpace(s[0]) {
      var r := Token(s[1..]);
      TokenSpec(s[1..]);
      assert s == [s[0]] + s[1..];
      forall k | 0 <= k < |Token(s)| ensures !IsSpace(Token(s)[k]) {
        if k > 0 {
          assert Token(s)[k] == r[k - 1];
        }
      }
    }
  }

  /** `s.split()`: the maximal runs of non-whitespace characters, in order. */
  function Split(s: String): (ws: seq<String>)
    decreases |s|
  {
    var t := LStrip(s);
    if t == [] then []
    else
      var w := Token(t);
      [w] + Split(t[|w|..])
  }

  /** `split()` yields non-empty words without whitespace, and none exactly for a string of whitespace. */
  lemma {:induction false} SplitSpec(s: String)
    ensures forall k :: 0 <= k < |Split(s)| ==> Split(s)[k] != [] && NoSpace(Split(s)[k])
    ensures Split(s) == [] <==> AllSpace(s)
    decreases |s|
  {
    var t := LStrip(s);
    LStripSpec(s);
    if t == [] {
      assert s[..|s|] == s;
    } else {
      var w := Token(t);
      TokenSpec(t);
      var rest := t[|w|..];
      SplitSpec(rest);
      assert Split(s) == [w] + Split(rest);
      assert t[0] == s[|s| - |t|];
      forall k | 1 <= k < |Split(s)| ensures Split(s)[k] != [] && NoSpace(Split(s)[k]) {
        assert Split(s)[k] == Split(rest)[k - 1];
      }
    }
  }

  /** `s.split()[0]`, or `None` where Python raises `IndexError` because `s` has no word. */
  function FirstWord(s: String): Option<String> {
    var ws := Split(s);
    if ws == [] then None else Some(ws[0])
  }

  /** `split()[0]`, when it exists, is a non-empty word without whitespace. */
  lemma FirstWordIsWord(s: String)
    ensures FirstWord(s).Some? ==> FirstWord(s).value != [] && NoSpace(FirstWord(s).value)
  {
    SplitSpec(s);
  }

  /** `s.split()[0]` fails exactly on a string of whitespace only. */
  lemma FirstWordMissing(s: String)
    ensures FirstWord(s).None? <==> AllSpace(s)
  {
    SplitSpec(s);
  }

  /** Python's `s[n:]` for `n >= 0`: empty when `n` is past the end. */
  function SliceFrom(s: String, n: nat): (r: String)
    ensures |r| == if n <= |s| then |s| - n else 0
    ensures n <= |s| ==> s == s[..n] + r
  {
    if n <= |s| then s[n..] else []
  }

  /** Python's string `<`: lexicographic order on code points, a proper prefix first. */
  predicate LexLess(a: String, b: String)
    decreases |a|
  {
    if a == [] then b != []
    else b != [] && (a[0] < b[0] || (a[0] == b[0] && LexLess(a[1..], b[1..])))
  }

  lemma {:induction false} LexLessIrreflexive(a: String)
    ensures !LexLess(a, a)
    decreases |a|
  {
    if a != [] {
      LexLessIrreflexive(a[1..]);
    }
  }

  lemma {:induction false} LexLessTransitive(a: String, b: String, c: String)
    requires LexLess(a, b) && LexLess(b, c)
    ensures LexLess(a, c)
    decreases |a|
  {
    if a != [] && a[0] == b[0] && b[0] == c[0] {
      LexLessTransitive(a[1..], b[1..], c[1..]);
    }
  }

  /** Any two different strings are ordered one way. */
  lemma {:induction false} LexLessTotal(a: String, b: String)
    requires a != b
    ensures LexLess(a, b) || LexLess(b, a)
    decreases |a|
  {
    if a != [] && b != [] && a[0] == b[0] {
      assert a == [a[0]] + a[1..] && b == [b[0]] + b[1..];
      LexLessTotal(a[1..], b[1..]);
    }
  }

  lemma {:induction false} LexLessAsymmetric(a: String, b: String)
    requires LexLess(a, b)
    ensures !LexLess(b, a)
  {
    if LexLess(b, a) {
      LexLessTransitive(a, b, a);
      LexLessIrreflexive(a);
    }
  }
}
