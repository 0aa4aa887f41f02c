/**
 * The parts of Python's `str` that the scripts rely on: `isspace`, `strip`,
 * `split()` with no separator, `sep.join(...)`, substring test `in`, and
 * `str(n)` for a non-negative integer.
 */
module Text {

  /** Python's `str.isspace` for one character (the characters `split()` and `strip()` drop). */
  predicate IsSpace(c: char) {
    || c == ' ' || c == '\t' || c == '\n' || c == '\r' || c == '\U{0B}' || c == '\U{0C}'
    || ('\U{1C}' <= c <= '\U{1F}') || c == '\U{85}' || c == '\U{A0}' || c == '\U{1680}'
    || ('\U{2000}' <= c <= '\U{200A}') || c == '\U{2028}' || c == '\U{2029}'
    || c == '\U{202F}' || c == '\U{205F}' || c == '\U{3000}'
  }

  predicate AllSpace(s: string) {
    forall i :: 0 <= i < |s| ==> IsSpace(s[i])
  }

  predicate NoSpace(s: string) {
    forall i :: 0 <= i < |s| ==> !IsSpace(s[i])
  }

  /** A string `strip()` leaves unchanged: it neither starts nor ends with whitespace. */
  predicate IsStripped(s: string) {
    s == [] || (!IsSpace(s[0]) && !IsSpace(s[|s| - 1]))
  }

  /** `s.lstrip()`: drop leading whitespace. */
  function StripStart(s: string): (r: string)
    ensures |r| <= |s|
  {
    if s != [] && IsSpace(s[0]) then StripStart(s[1..]) else s
  }

  /** `s.lstrip()` is the longest suffix of `s` that does not start with whitespace. */
  lemma {:induction false} StripStartSpec(s: string)
    ensures StripStart(s) == s[|s| - |StripStart(s)|..]
    ensures AllSpace(s[..|s| - |StripStart(s)|])
    ensures StripStart(s) == [] || !IsSpace(StripStart(s)[0])
  {
    if s != [] && IsSpace(s[0]) {
      var r := StripStart(s[1..]);
      StripStartSpec(s[1..]);
      assert s[1..][|s| - 1 - |r|..] == s[|s| - |r|..];
      var cut, rest := s[..|s| - |r|], s[1..][..|s| - 1 - |r|];
      forall i | 0 <= i < |cut| ensures IsSpace(cut[i]) {
        if i > 0 {
          assert cut[i] == rest[i - 1];
        }
      }
    }
  }

  /** `s.rstrip()`: drop trailing whitespace. */
  function StripEnd(s: string): (r: string)
    ensures |r| <= |s|
  {
    if s != [] && IsSpace(s[|s| - 1]) then StripEnd(s[..|s| - 1]) else s
  }

  /** `s.rstrip()` is the longest prefix of `s` that does not end with whitespace. */
  lemma {:induction false} StripEndSpec(s: string)
    ensures StripEnd(s) == s[..|StripEnd(s)|]
    ensures AllSpace(s[|StripEnd(s)|..])
    ensures StripEnd(s) == [] || !IsSpace(StripEnd(s)[|StripEnd(s)| - 1])
  {
    if s != [] && IsSpace(s[|s| - 1]) {
      var init := s[..|s| - 1];
      var r := StripEnd(init);
      StripEndSpec(init);
      assert init[..|r|] == s[..|r|];
      var cut, rest := s[|r|..], init[|r|..];
      forall i | 0 <= i < |cut| ensures IsSpace(cut[i]) {
        if i < |rest| {
          assert cut[i] == rest[i];
        }
      }
    }
  }

  /** `s.strip()`. */
  function Strip(s: string): string {
    StripEnd(StripStart(s))
  }

  /** `t` is what `strip()` makes of `s`: `s` with all leading and trailing whitespace cut off. */
  ghost predicate StripOf(t: string, s: string) {
    IsStripped(t) &&
    exists i, j :: 0 <= i <= j <= |s| && t == s[i..j] && AllSpace(s[..i]) && AllSpace(s[j..])
  }

  lemma AllSpaceOutside(s: string, i: nat, j: nat)
    requires i <= j <= |s| && AllSpace(s[..i]) && AllSpace(s[j..])
    ensures forall k :: 0 <= k < i ==> IsSpace(s[k])
    ensures forall k :: j <= k < |s| ==> IsSpace(s[k])
  {
    assert forall k :: 0 <= k < i ==> s[k] == s[..i][k];
    assert forall k :: j <= k < |s| ==> s[k] == s[j..][k - j];
  }

  /** Two cuts of `s` that both leave a stripped infix between whitespace-only ends leave the same infix. */
  lemma StripCutsAgree(s: string, i1: nat, j1: nat, i2: nat, j2: nat)
    requires i1 <= j1 <= |s| && AllSpace(s[..i1]) && AllSpace(s[j1..]) && IsStripped(s[i1..j1])
    requires i2 <= j2 <= |s| && AllSpace(s[..i2]) && AllSpace(s[j2..]) && IsStripped(s[i2..j2])
    ensures s[i1..j1] == s[i2..j2]
  {
    AllSpaceOutside(s, i1, j1);
    AllSpaceOutside(s, i2, j2);
    if i1 == j1 || i2 == j2 {
      // one side is all whitespace, so `s` is, and so is the other side
      assert i1 == j1 && i2 == j2;
    } else {
      // the first and the last non-whitespace characters of `s` fix both ends
      assert s[i1..j1][0] == s[i1] && s[i2..j2][0] == s[i2];
      assert s[i1..j1][j1 - i1 - 1] == s[j1 - 1] && s[i2..j2][j2 - i2 - 1] == s[j2 - 1];
      assert i1 == i2 && j1 == j2;
    }
  }

  /** `StripOf` pins down one string. */
  lemma StripOfUnique(t1: string, t2: string, s: string)
    requires StripOf(t1, s) && StripOf(t2, s)
    ensures t1 == t2
  {
    var i1, j1 :| 0 <= i1 <= j1 <= |s| && t1 == s[i1..j1] && AllSpace(s[..i1]) && AllSpace(s[j1..]);
    var i2, j2 :| 0 <= i2 <= j2 <= |s| && t2 == s[i2..j2] && AllSpace(s[..i2]) && AllSpace(s[j2..]);
    StripCutsAgree(s, i1, j1, i2, j2);
  }

  /** `s.strip()` is the one string `StripOf` describes. */
  lemma StripSpec(s: string)
    ensures StripOf(Strip(s), s)
  {
    StripIsStripped(s);
    var i, j := StripCuts(s);
  }

  lemma StripIsStripped(s: string)
    ensures IsStripped(Strip(s))
  {
    var t := StripStart(s);
    var r := StripEnd(t);
    StripStartSpec(s);
    StripEndSpec(t);
    if r != [] {
      assert r[0] == t[0];
    }
  }

  /** Where `strip()` cuts `s`: everything before `i` and from `j` on is whitespace. */
  lemma StripCuts(s: string) returns (i: nat, j: nat)
    ensures i <= j <= |s| && Strip(s) == s[i..j] && AllSpace(s[..i]) && AllSpace(s[j..])
  {
    var t := StripStart(s);
    var r := StripEnd(t);
    StripStartSpec(s);
    StripEndSpec(t);
    i := |s| - |t|;
    j := i + |r|;
    assert r == s[i..j];
    assert s[j..] == t[|r|..];
  }

  /** `bool(s.strip())` is false exactly when `s` is whitespace only. */
  lemma {:induction false} StripEmptyIff(s: string)
    ensures Strip(s) == [] <==> AllSpace(s)
  {
    var t := StripStart(s);
    StripStartSpec(s);
    if t != [] {
      assert !IsSpace(s[|s| - |t|]);
      StripEndKeepsNonSpace(t);
    } else {
      assert s[..|s| - |t|] == s;
    }
  }

  lemma {:induction false} StripEndKeepsNonSpace(t: string)
    requires t != [] && !IsSpace(t[0])
    ensures StripEnd(t) != []
  {
    if IsSpace(t[|t| - 1]) {
      StripEndKeepsNonSpace(t[..|t| - 1]);
    }
  }

  /** Stripping is idempotent. */
  lemma StripIdempotent(s: string)
    ensures Strip(Strip(s)) == Strip(s)
  {
    var r := Strip(s);
    StripIsStripped(s);
    if r != [] {
      assert StripStart(r) == r;
      assert StripEnd(r) == r;
    }
  }

  /** A word of `split()`: non-empty and free of whitespace. */
  predicate IsWord(w: string) {
    w != [] && NoSpace(w)
  }

  /** The longest whitespace-free prefix of `s`. */
  function WordPrefix(s: string): (w: string)
    ensures |w| <= |s|
    ensures s != [] && !IsSpace(s[0]) ==> w != []
  {
    if s == [] || IsSpace(s[0]) then [] else [s[0]] + WordPrefix(s[1..])
  }

  /** `WordPrefix(s)` is a whitespace-free prefix of `s` that stops at whitespace or at the end. */
  lemma {:induction false} WordPrefixSpec(s: string)
    ensures WordPrefix(s) == s[..|WordPrefix(s)|] && NoSpace(WordPrefix(s))
    ensures |WordPrefix(s)| == |s| || IsSpace(s[|WordPrefix(s)|])
  {
    if s != [] && !IsSpace(s[0]) {
      var w := WordPrefix(s[1..]);
      WordPrefixSpec(s[1..]);
      assert s[1..][..|w|] == s[1..|w| + 1];
      forall i | 0 <= i < |[s[0]] + w| ensures !IsSpace(([s[0]] + w)[i]) {
        if i > 0 {
          assert ([s[0]] + w)[i] == w[i - 1];
        }
      }
    }
  }

  /** `s.split()`: the maximal runs of non-whitespace characters, in order. */
  function Split(s: string): seq<string>
    decreases |s|
  {
    if s == [] then []
    else if IsSpace(s[0]) then Split(s[1..])
    else var w := WordPrefix(s); [w] + Split(s[|w|..])
  }

  /** Every element `split()` yields is a word: non-empty and whitespace-free. */
  lemma {:induction false} SplitWords(s: string)
    ensures forall k :: 0 <= k < |Split(s)| ==> IsWord(Split(s)[k])
    decreases |s|
  {
    if s != [] {
      if IsSpace(s[0]) {
        SplitWords(s[1..]);
      } else {
        var w := WordPrefix(s);
        WordPrefixSpec(s);
        SplitWords(s[|w|..]);
        var rest := Split(s[|w|..]);
        forall k | 0 <= k < |[w] + rest| ensures IsWord(([w] + rest)[k]) {
          if k > 0 {
            assert ([w] + rest)[k] == rest[k - 1];
          }
        }
      }
    }
  }

  /** `len(s.split())`. */
  function WordCount(s: string): nat {
    |Split(s)|
  }

  /** `sep.join(xs)`. */
  function Join(sep: string, xs: seq<string>): string {
    if |xs| == 0 then ""
    else if |xs| == 1 then xs[0]
    else xs[0] + sep + Join(sep, xs[1..])
  }

  /** A string with no words is exactly a whitespace-only string. */
  lemma {:induction false} SplitEmptyIff(s: string)
    ensures Split(s) == [] <==> AllSpace(s)
    decreases |s|
  {
    if s != [] {
      if IsSpace(s[0]) {
        SplitEmptyIff(s[1..]);
        assert AllSpace(s) <==> AllSpace(s[1..]) by {
          if AllSpace(s[1..]) {
            forall i | 0 <= i < |s| ensures IsSpace(s[i]) {
              if i > 0 { assert s[i] == s[1..][i - 1]; }
            }
          }
        }
      } else {
        assert !AllSpace(s);
      }
    }
  }

  lemma WordPrefixOfWord(w: string, rest: string)
    requires IsWord(w)
    requires rest == [] || IsSpace(rest[0])
    ensures WordPrefix(w + rest) == w
    decreases |w|
  {
    var s := w + rest;
    assert s[0] == w[0] && s[1..] == w[1..] + rest;
    if |w| > 1 {
      WordPrefixOfWord(w[1..], rest);
    }
  }

  /** Round trip: splitting the space-joined words gives the words back. */
  lemma {:induction false} SplitJoin(ws: seq<string>)
    requires forall k :: 0 <= k < |ws| ==> IsWord(ws[k])
    ensures Split(Join(" ", ws)) == ws
  {
    if |ws| == 1 {
      var w := ws[0];
      WordPrefixOfWord(w, "");
      assert w + "" == w;
      assert w[|w|..] == [];
    } else if |ws| > 1 {
      var w, rest := ws[0], Join(" ", ws[1..]);
      var s := w + " " + rest;
      assert s == w + (" " + rest);
      WordPrefixOfWord(w, " " + rest);
      assert s[|w|..] == " " + rest;
      assert (" " + rest)[1..] == rest;
      SplitJoin(ws[1..]);
      assert Split(s) == [w] + Split(" " + rest);
    }
  }

  /** A whitespace character ends the word in progress. */
  lemma {:induction false} WordPrefixBeforeSpace(a: string, c: char, b: string)
    requires IsSpace(c)
    ensures WordPrefix(a + [c] + b) == WordPrefix(a)
    decreases |a|
  {
    var s := a + [c] + b;
    if a == [] {
      assert s[0] == c;
    } else {
      assert s[0] == a[0] && s[1..] == a[1..] + [c] + b;
      if !IsSpace(a[0]) {
        WordPrefixBeforeSpace(a[1..], c, b);
      }
    }
  }

  /**
   * Any whitespace character separates: the words of `a + [c] + b` are the
   * words of `a` followed by the words of `b`. With `SplitWord` and
   * `SplitEmptyIff` this fixes `Split` on every string.
   */
  lemma {:induction false} SplitAtSpace(a: string, c: char, b: string)
    requires IsSpace(c)
    ensures Split(a + [c] + b) == Split(a) + Split(b)
    decreases |a|
  {
    var s := a + [c] + b;
    if a == [] {
      assert s[0] == c && s[1..] == b;
    } else if IsSpace(a[0]) {
      assert s[0] == a[0] && s[1..] == a[1..] + [c] + b;
      SplitAtSpace(a[1..], c, b);
    } else {
      var w := WordPrefix(a);
      assert s[0] == a[0];
      WordPrefixBeforeSpace(a, c, b);
      WordPrefixSpec(a);
      assert s[|w|..] == a[|w|..] + [c] + b;
      SplitAtSpace(a[|w|..], c, b);
    }
  }

  /** A single word splits into itself. */
  lemma SplitWord(w: string)
    requires IsWord(w)
    ensures Split(w) == [w]
  {
    WordPrefixOfWord(w, "");
    assert w + "" == w;
    assert w[|w|..] == [];
  }

  /** Number of words in a space-joined list of words is the length of the list. */
  lemma WordCountJoin(ws: seq<string>)
    requires forall k :: 0 <= k < |ws| ==> IsWord(ws[k])
    ensures WordCount(Join(" ", ws)) == |ws|
  {
    SplitJoin(ws);
  }

  /** `sub in s` for strings. */
  predicate OccursAt(s: string, sub: string, i: nat) {
    i + |sub| <= |s| && s[i..i + |sub|] == sub
  }

  predicate Contains(s: string, sub: string) {
    exists i: nat :: i <= |s| && OccursAt(s, sub, i)
  }

  predicate IsDigit(c: char) {
    '0' <= c <= '9'
  }

  function DigitChar(d: nat): (c: char)
    requires d < 10
    ensures IsDigit(c)
  {
    ['0', '1', '2', '3', '4', '5', '6', '7', '8', '9'][d]
  }

  function DigitValue(c: char): (d: nat)
    requires IsDigit(c)
    ensures d < 10
  {
    (c as int - '0' as int)
  }

  /** `str(n)` for `n >= 0`: decimal digits, no leading zero. */
  function NatToString(n: nat): (s: string)
    ensures s != [] && forall i :: 0 <= i < |s| ==> IsDigit(s[i])
    ensures s[0] == '0' ==> n == 0
  {
    if n < 10 then [DigitChar(n)] else NatToString(n / 10) + [DigitChar(n % 10)]
  }

  /** `int(s)` for a string of decimal digits. */
  function ParseDecimal(s: string): nat
    requires forall i :: 0 <= i < |s| ==> IsDigit(s[i])
  {
    if s == [] then 0 else ParseDecimal(s[..|s| - 1]) * 10 + DigitValue(s[|s| - 1])
  }

  /** Round trip: reading back the decimal form of `n` gives `n`. */
  lemma {:induction false} ParseNatToString(n: nat)
    ensures ParseDecimal(NatToString(n)) == n
  {
    var s := NatToString(n);
    if n < 10 {
      assert s[..0] == [];
      assert DigitValue(DigitChar(n)) == n by {
        assert ['0', '1', '2', '3', '4', '5', '6', '7', '8', '9'][n] as int == '0' as int + n;
      }
    } else {
      ParseNatToString(n / 10);
      assert s[..|s| - 1] == NatToString(n / 10);
      var d := n % 10;
      assert DigitValue(DigitChar(d)) == d by {
        assert ['0', '1', '2', '3', '4', '5', '6', '7', '8', '9'][d] as int == '0' as int + d;
      }
    }
  }

  /** Distinct numbers have distinct decimal forms. */
  lemma NatToStringInjective(a: nat, b: nat)
    ensures NatToString(a) == NatToString(b) ==> a == b
  {
    ParseNatToString(a);
    ParseNatToString(b);
  }
}
