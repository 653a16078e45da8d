/**
 * The few Python string operations the log analyzer relies on:
 * `str.strip()`, `str.split(sep)` and `int(str)` in base 10.
 */
module PyText {
  import opened Wrappers

  // ---------------------------------------------------------------------------
  // Whitespace and str.strip()
  // ---------------------------------------------------------------------------

  /** The characters Python's `str.isspace()` accepts (and `str.strip()` removes). */
  predicate IsSpace(c: char) {
    || ('\t' <= c <= '\r')
    || ('\U{1C}' <= c <= ' ')
    || c == '\U{85}' || c == '\U{A0}' || c == '\U{1680}'
    || ('\U{2000}' <= c <= '\U{200A}')
    || c == '\U{2028}' || c == '\U{2029}' || c == '\U{202F}'
    || c == '\U{205F}' || c == '\U{3000}'
  }

  predicate AllSpace(s: string) {
    forall i :: 0 <= i < |s| ==> IsSpace(s[i])
  }

  /** No whitespace at either end: what `strip()` leaves behind. */
  predicate Trimmed(s: string) {
    s == [] || (!IsSpace(s[0]) && !IsSpace(s[|s| - 1]))
  }

  function LStrip(s: string): string
    decreases |s|
  {
    if |s| > 0 && IsSpace(s[0]) then LStrip(s[1..]) else s
  }

  function RStrip(s: string): string
    decreases |s|
  {
    if |s| > 0 && IsSpace(s[|s| - 1]) then RStrip(s[..|s| - 1]) else s
  }

  /** Python's `s.strip()`: drop the longest all-whitespace prefix and suffix. */
  function Strip(s: string): (r: string)
    ensures |r| <= |s|
  {
    LStripFacts(s);
    RStripFacts(LStrip(s));
    RStrip(LStrip(s))
  }

  /** `lstrip()` removes an all-whitespace prefix and stops at the first other character. */
  lemma {:induction false} LStripFacts(s: string)
    ensures var r := LStrip(s);
      && (r == [] || !IsSpace(r[0]))
      && |r| <= |s| && r == s[|s| - |r|..]
      && AllSpace(s[..|s| - |r|])
    decreases |s|
  {
    if |s| > 0 && IsSpace(s[0]) {
      LStripFacts(s[1..]);
      var r := LStrip(s);
      forall i | 0 <= i < |s| - |r| ensures IsSpace(s[i]) {
        if i > 0 { assert s[i] == s[1..][i - 1]; }
      }
    }
  }

  /** `rstrip()` removes an all-whitespace suffix and stops at the last other character. */
  lemma {:induction false} RStripFacts(s: string)
    ensures var r := RStrip(s);
      && (r == [] || !IsSpace(r[|r| - 1]))
      && |r| <= |s| && r == s[..|r|]
      && AllSpace(s[|r|..])
    decreases |s|
  {
    if |s| > 0 && IsSpace(s[|s| - 1]) {
      RStripFacts(s[..|s| - 1]);
      var r := RStrip(s);
      forall i | |r| <= i < |s| ensures IsSpace(s[i]) {
        if i < |s| - 1 { assert s[i] == s[..|s| - 1][i]; }
      }
    }
  }

  /**
   * What `strip()` returns: a slice of the input with no whitespace at either
   * end, obtained by removing an all-whitespace prefix and an all-whitespace
   * suffix.
   */
  lemma StripFacts(s: string)
    ensures Trimmed(Strip(s))
    ensures var i, j := |s| - |LStrip(s)|, |s| - |LStrip(s)| + |Strip(s)|;
      && |Strip(s)| <= |LStrip(s)| <= |s| && AllSpace(s[..i]) && AllSpace(s[j..]) && Strip(s) == s[i..j]
  {
    var l := LStrip(s);
    LStripFacts(s);
    var r := RStrip(l);
    RStripFacts(l);
    assert Strip(s) == r;
    var i := |s| - |l|;
    var j := i + |r|;
    assert Trimmed(r) by {
      assert r != [] ==> r[0] == l[0];
    }
    assert s[i..j] == r && s[j..] == l[|r|..] by {
      assert l == s[i..];
      assert r == l[..|r|];
    }
  }

  lemma {:induction false} LStripSkip(p: string, x: string)
    requires AllSpace(p)
    ensures LStrip(p + x) == LStrip(x)
    decreases |p|
  {
    if p == [] {
      assert p + x == x;
    } else {
      assert (p + x)[1..] == p[1..] + x;
      LStripSkip(p[1..], x);
    }
  }

  lemma {:induction false} RStripSkip(x: string, q: string)
    requires AllSpace(q)
    ensures RStrip(x + q) == RStrip(x)
    decreases |q|
  {
    if q == [] {
      assert x + q == x;
    } else {
      assert (x + q)[..|x + q| - 1] == x + q[..|q| - 1];
      RStripSkip(x, q[..|q| - 1]);
    }
  }

  lemma {:induction false} LStripAppend(s: string, q: string)
    requires !AllSpace(s)
    ensures LStrip(s + q) == LStrip(s) + q
    decreases |s|
  {
    assert s != [];
    if IsSpace(s[0]) {
      assert (s + q)[1..] == s[1..] + q;
      assert !AllSpace(s[1..]) by {
        var i :| 0 <= i < |s| && !IsSpace(s[i]);
        assert s[1..][i - 1] == s[i];
      }
      LStripAppend(s[1..], q);
    }
  }

  lemma AllSpaceConcat(a: string, b: string)
    requires AllSpace(a) && AllSpace(b)
    ensures AllSpace(a + b)
  {
    forall i | 0 <= i < |a + b| ensures IsSpace((a + b)[i]) {
      if i >= |a| { assert (a + b)[i] == b[i - |a|]; }
    }
  }

  lemma {:induction false} AllSpaceStrips(s: string)
    requires AllSpace(s)
    ensures Strip(s) == []
    decreases |s|
  {
    if s != [] {
      assert AllSpace(s[1..]) by {
        forall i | 0 <= i < |s| - 1 ensures IsSpace(s[1..][i]) {
          assert s[1..][i] == s[i + 1];
        }
      }
      AllSpaceStrips(s[1..]);
    }
  }

  /** A trimmed string is left alone by `strip()`. */
  lemma StripTrimmed(s: string)
    requires Trimmed(s)
    ensures Strip(s) == s
  {
  }

  /** `strip()` is idempotent. */
  lemma StripIdempotent(s: string)
    ensures Strip(Strip(s)) == Strip(s)
  {
    StripFacts(s);
    StripTrimmed(Strip(s));
  }

  /**
   * Whitespace around a string never changes what `strip()` returns:
   * `(p + s + q).strip() == s.strip()` whenever `p` and `q` are all whitespace.
   */
  lemma StripPadding(p: string, s: string, q: string)
    requires AllSpace(p) && AllSpace(q)
    ensures Strip(p + s + q) == Strip(s)
  {
    assert p + s + q == p + (s + q);
    LStripSkip(p, s + q);
    if AllSpace(s) {
      AllSpaceConcat(s, q);
      AllSpaceStrips(s + q);
      AllSpaceStrips(s);
    } else {
      LStripAppend(s, q);
      RStripSkip(LStrip(s), q);
    }
  }

  /** `strip()` yields the empty string exactly when the input is all whitespace. */
  lemma StripEmptyIff(s: string)
    ensures Strip(s) == [] <==> AllSpace(s)
  {
    if AllSpace(s) {
      AllSpaceStrips(s);
    } else {
      var l := LStrip(s);
      LStripFacts(s);
      RStripFacts(l);
      assert s == s[..|s| - |l|] + l;
    }
  }

  // ---------------------------------------------------------------------------
  // str.split(sep) and its inverse str.join
  // ---------------------------------------------------------------------------

  /** Python's `s.split(sep)` for a one-character separator: empty parts are kept. */
  function Split(s: string, sep: char): (parts: seq<string>)
    ensures |parts| >= 1
    decreases |s|
  {
    if s == [] then [""]
    else
      var rest := Split(s[1..], sep);
      if s[0] == sep then [""] + rest
      else [[s[0]] + rest[0]] + rest[1..]
  }

  /** No part of a split holds the separator. */
  lemma {:induction false} SplitPartsNoSep(s: string, sep: char)
    ensures forall i :: 0 <= i < |Split(s, sep)| ==> sep !in Split(s, sep)[i]
    decreases |s|
  {
    if s != [] {
      SplitPartsNoSep(s[1..], sep);
      var rest := Split(s[1..], sep);
      if s[0] != sep {
        assert sep !in [s[0]] + rest[0];
        var parts := Split(s, sep);
        assert parts == [[s[0]] + rest[0]] + rest[1..];
        forall i | 0 < i < |parts| ensures sep !in parts[i] {
          assert parts[i] == rest[i];
        }
      }
    }
  }

  /** Python's `sep.join(parts)`. */
  function Join(parts: seq<string>, sep: char): string
    requires |parts| >= 1
    decreases |parts|
  {
    if |parts| == 1 then parts[0] else parts[0] + [sep] + Join(parts[1..], sep)
  }

  /** Splitting and joining back gives the original string. */
  lemma {:induction false} JoinSplit(s: string, sep: char)
    ensures Join(Split(s, sep), sep) == s
    decreases |s|
  {
    if s != [] {
      JoinSplit(s[1..], sep);
      var rest := Split(s[1..], sep);
      if s[0] != sep {
        if |rest| == 1 {
        } else {
          assert ([[s[0]] + rest[0]] + rest[1..])[1..] == rest[1..];
        }
      }
    }
  }

  /** Joining parts that do not contain the separator and splitting again gives the parts back. */
  lemma {:induction false} SplitJoin(parts: seq<string>, sep: char)
    requires |parts| >= 1
    requires forall i :: 0 <= i < |parts| ==> sep !in parts[i]
    ensures Split(Join(parts, sep), sep) == parts
    decreases |parts|
  {
    if |parts| == 1 {
      SplitNoSep(parts[0], sep);
    } else {
      SplitJoin(parts[1..], sep);
      SplitPrefix(parts[0], Join(parts[1..], sep), sep);
      assert [parts[0]] + parts[1..] == parts;
    }
  }

  lemma {:induction false} SplitNoSep(s: string, sep: char)
    requires sep !in s
    ensures Split(s, sep) == [s]
    decreases |s|
  {
    if s != [] {
      SplitNoSep(s[1..], sep);
      assert [s[0]] + s[1..] == s;
    }
  }

  /** `(a + sep + b).split(sep) == [a] + b.split(sep)` when `a` holds no separator. */
  lemma {:induction false} SplitPrefix(a: string, b: string, sep: char)
    requires sep !in a
    ensures Split(a + [sep] + b, sep) == [a] + Split(b, sep)
    decreases |a|
  {
    if a == [] {
      assert a + [sep] + b == [sep] + b;
      assert ([sep] + b)[1..] == b;
    } else {
      assert (a + [sep] + b)[1..] == a[1..] + [sep] + b;
      SplitPrefix(a[1..], b, sep);
      assert [a[0]] + a[1..] == a;
    }
  }

  // ---------------------------------------------------------------------------
  // Decimal digits and int()
  // ---------------------------------------------------------------------------

  predicate IsDigit(c: char) {
    '0' <= c <= '9'
  }

  predicate AllDigits(s: string) {
    forall i :: 0 <= i < |s| ==> IsDigit(s[i])
  }

  /** One or more ASCII digits: the regular expression `\d+`. */
  predicate IsDecimal(s: string) {
    |s| >= 1 && AllDigits(s)
  }

  /** The value of a string of digits read in base 10 (the empty string reads as 0). */
  function DigitsValue(s: string): (n: nat)
    requires AllDigits(s)
    ensures n < Pow10(|s|)
    decreases |s|
  {
    if s == [] then 0
    else
      var high := DigitsValue(s[..|s| - 1]);
      assert IsDigit(s[|s| - 1]);
      var d := s[|s| - 1] as int - '0' as int;
      assert 0 <= d <= 9;
      assert high * 10 + d < Pow10(|s|) by {
        assert Pow10(|s|) == 10 * Pow10(|s| - 1);
        assert high + 1 <= Pow10(|s| - 1);
        assert (high + 1) * 10 <= Pow10(|s| - 1) * 10;
      }
      high * 10 + d
  }

  function Pow10(k: nat): (p: nat)
    ensures p >= 1
  {
    if k == 0 then 1 else 10 * Pow10(k - 1)
  }

  /**
   * The digit part that `int()` accepts after an optional sign: digits, with
   * single underscores allowed between two digits.
   */
  predicate UnderscoredDigits(s: string) {
    && |s| >= 1
    && IsDigit(s[0]) && IsDigit(s[|s| - 1])
    && (forall i :: 0 <= i < |s| ==> IsDigit(s[i]) || s[i] == '_')
    && (forall i :: 0 <= i < |s| - 1 ==> s[i] == '_' ==> s[i + 1] != '_')
  }

  function RemoveUnderscores(s: string): (r: string)
    requires forall i :: 0 <= i < |s| ==> IsDigit(s[i]) || s[i] == '_'
    ensures AllDigits(r)
    decreases |s|
  {
    if s == [] then []
    else if s[0] == '_' then RemoveUnderscores(s[1..])
    else [s[0]] + RemoveUnderscores(s[1..])
  }

  /**
   * The whitespace `int()` skips around its digits. Text is first mapped to
   * ASCII: non-ASCII whitespace becomes a blank, ASCII characters stay as
   * they are. Only ASCII blank, tab, line feed, vertical tab, form feed and
   * carriage return are then skipped, so `\x1c`..`\x1f` are not skipped.
   */
  predicate IsIntSpace(c: char) {
    IsSpace(c) && !('\U{1C}' <= c <= '\U{1F}')
  }

  function LStripInt(s: string): string
    decreases |s|
  {
    if |s| > 0 && IsIntSpace(s[0]) then LStripInt(s[1..]) else s
  }

  function RStripInt(s: string): string
    decreases |s|
  {
    if |s| > 0 && IsIntSpace(s[|s| - 1]) then RStripInt(s[..|s| - 1]) else s
  }

  /** The whitespace `int()` ignores, removed from both ends. */
  function IntStrip(s: string): string {
    RStripInt(LStripInt(s))
  }

  /**
   * Python's `int(s)` in base 10: surrounding whitespace (`IsIntSpace`) is
   * ignored, then one optional sign, then ASCII digits with single
   * underscores between them; anything else raises `ValueError`, modelled as
   * `None`. Blank text never reads as a number.
   */
  function PyInt(s: string): (r: Option<int>)
    ensures IntStrip(s) == [] ==> r.None?
  {
    var t := IntStrip(s);
    var negative := |t| > 0 && t[0] == '-';
    var body := if |t| > 0 && (t[0] == '-' || t[0] == '+') then t[1..] else t;
    if UnderscoredDigits(body) then
      var v: int := DigitsValue(RemoveUnderscores(body));
      Some(if negative then -v else v)
    else None
  }

  /**
   * The information separator `\x1c` is whitespace to `strip()` but not to
   * `int()`: it strips away, yet `int()` rejects the text it leads.
   */
  lemma SeparatorNotSkipped()
    ensures Strip("\U{1C}1") == "1"
    ensures PyInt("\U{1C}1").None?
  {
    var s := "\U{1C}1";
    assert IsSpace(s[0]) && !IsSpace(s[1]);
    assert LStrip(s) == LStrip(s[1..]) == "1";
    assert !IsIntSpace(s[0]) && !IsIntSpace(s[1]);
    assert IntStrip(s) == s;
    assert !UnderscoredDigits(s) by {
      assert !IsDigit(s[0]);
    }
  }

  lemma {:induction false} RemoveUnderscoresDigits(s: string)
    requires AllDigits(s)
    ensures RemoveUnderscores(s) == s
    decreases |s|
  {
    if s != [] {
      RemoveUnderscoresDigits(s[1..]);
      assert [s[0]] + s[1..] == s;
    }
  }

  /** On a plain string of digits `int()` succeeds and returns its decimal value. */
  lemma PyIntDecimal(s: string)
    requires IsDecimal(s)
    ensures PyInt(s) == Some(DigitsValue(s))
  {
    assert IsDigit(s[0]) && IsDigit(s[|s| - 1]);
    assert LStripInt(s) == s && RStripInt(s) == s;
    RemoveUnderscoresDigits(s);
    assert UnderscoredDigits(s) by {
      forall i | 0 <= i < |s| - 1 ensures s[i] == '_' ==> s[i + 1] != '_' {
        assert IsDigit(s[i]);
      }
    }
  }

  /** `n` written with exactly `w` digits, zero-padded on the left (the `%04d`/`%02d` of a format). */
  function Pad(n: nat, w: nat): (s: string)
    requires n < Pow10(w)
    ensures |s| == w && AllDigits(s)
    decreases w
  {
    if w == 0 then ""
    else
      assert n / 10 < Pow10(w - 1);
      Pad(n / 10, w - 1) + [('0' as int + n % 10) as char]
  }

  /** Reading back a zero-padded number gives the number. */
  lemma {:induction false} DigitsValuePad(n: nat, w: nat)
    requires n < Pow10(w)
    ensures DigitsValue(Pad(n, w)) == n
    decreases w
  {
    if w == 0 {
      assert n == 0;
    } else {
      var s := Pad(n, w);
      assert n / 10 < Pow10(w - 1);
      assert s[..w - 1] == Pad(n / 10, w - 1);
      DigitsValuePad(n / 10, w - 1);
    }
  }

  /** Padding the value of a digit string to its own width gives the string back. */
  lemma {:induction false} PadDigitsValue(s: string)
    requires AllDigits(s)
    ensures Pad(DigitsValue(s), |s|) == s
    decreases |s|
  {
    if s != [] {
      var init := s[..|s| - 1];
      var h := DigitsValue(init);
      assert IsDigit(s[|s| - 1]);
      var d := s[|s| - 1] as int - '0' as int;
      assert (h * 10 + d) / 10 == h && (h * 10 + d) % 10 == d;
      PadDigitsValue(init);
      assert s == init + [s[|s| - 1]];
    }
  }
}
