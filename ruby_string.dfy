/**
  The parts of Ruby's String behaviour that the rehydration pipeline relies on,
  written out rule by rule: the `\s` character class, `strip`, `gsub(/\s+/, "")`,
  `split` on one character or on `/\D/` (trailing empty fields suppressed),
  the awk-style `split(" ")`, and `include?` of a substring.
 */
module RubyString {

  /** Characters matched by `\s` in a Ruby regular expression: [ \t\n\v\f\r]. */
  predicate IsSpace(c: char) {
    c == ' ' || c == '\t' || c == '\n' || c == '\U{B}' || c == '\U{C}' || c == '\r'
  }

  /** Characters removed by `String#strip`: the whitespace above and NUL. */
  predicate IsStripChar(c: char) {
    IsSpace(c) || c == '\0'
  }

  /** Characters matched by `\d` (ASCII digits only in Ruby). */
  predicate IsDigit(c: char) {
    '0' <= c <= '9'
  }

  predicate NoSpace(s: string) {
    forall k :: 0 <= k < |s| ==> !IsSpace(s[k])
  }

  predicate AllDigits(s: string) {
    forall k :: 0 <= k < |s| ==> IsDigit(s[k])
  }

  // ---------------------------------------------------------------------------
  // include?

  /** `s.include?(pat)`: `pat` occurs in `s` as a contiguous substring (case-sensitive). */
  predicate Contains(s: string, pat: string)
    decreases |s|
  {
    pat <= s || (s != [] && Contains(s[1..], pat))
  }

  /** A substring occurrence at any position makes `Contains` hold (`ContainsOccurs` is the converse). */
  lemma {:induction false} ContainsAt(s: string, pat: string, i: nat)
    requires i + |pat| <= |s| && s[i..i + |pat|] == pat
    ensures Contains(s, pat)
    decreases i
  {
    if i > 0 {
      assert s[1..][i - 1..i - 1 + |pat|] == s[i..i + |pat|];
      ContainsAt(s[1..], pat, i - 1);
    }
  }

  /** Conversely, when `Contains` holds the pattern occurs at some position of the text. */
  lemma {:induction false} ContainsOccurs(s: string, pat: string) returns (i: nat)
    requires Contains(s, pat)
    ensures i + |pat| <= |s| && s[i..i + |pat|] == pat
    decreases |s|
  {
    if pat <= s {
      i := 0;
    } else {
      var j := ContainsOccurs(s[1..], pat);
      i := j + 1;
      assert s[i..i + |pat|] == s[1..][j..j + |pat|];
    }
  }

  /** A pattern longer than the text never occurs in it. */
  lemma {:induction false} ContainsLength(s: string, pat: string)
    requires Contains(s, pat)
    ensures |pat| <= |s|
    decreases |s|
  {
    if !(pat <= s) {
      ContainsLength(s[1..], pat);
    }
  }

  /** A pattern with a character the text lacks never occurs in it. */
  lemma {:induction false} ContainsNeedsChar(s: string, pat: string, c: char)
    requires c in pat && c !in s
    ensures !Contains(s, pat)
    decreases |s|
  {
    if s != [] {
      ContainsNeedsChar(s[1..], pat, c);
    }
  }

  /** Whatever surrounds it, a string contains each of its infixes. */
  lemma ContainsInfix(a: string, pat: string, b: string)
    ensures Contains(a + pat + b, pat)
  {
    var s := a + pat + b;
    assert s[|a|..|a| + |pat|] == pat;
    ContainsAt(s, pat, |a|);
  }

  // ---------------------------------------------------------------------------
  // gsub!(/\s+/, "")

  /** `s.gsub(/\s+/, "")`: every whitespace character removed, the others kept in order. */
  function RemoveSpaces(s: string): (r: string)
    ensures |r| <= |s|
    ensures NoSpace(r)
    ensures NoSpace(s) ==> r == s
  {
    if s == [] then []
    else if IsSpace(s[0]) then RemoveSpaces(s[1..])
    else [s[0]] + RemoveSpaces(s[1..])
  }

  lemma {:induction false} RemoveSpacesAppend(a: string, b: string)
    ensures RemoveSpaces(a + b) == RemoveSpaces(a) + RemoveSpaces(b)
  {
    if a != [] {
      assert (a + b)[0] == a[0];
      assert (a + b)[1..] == a[1..] + b;
      RemoveSpacesAppend(a[1..], b);
    } else {
      assert a + b == b;
    }
  }

  /** A whitespace character contributes nothing, wherever it stands. */
  lemma RemoveSpacesDropsSpace(a: string, w: char, b: string)
    requires IsSpace(w)
    ensures RemoveSpaces(a + [w] + b) == RemoveSpaces(a + b)
  {
    RemoveSpacesAppend(a, [w] + b);
    RemoveSpacesAppend(a, b);
    assert a + [w] + b == a + ([w] + b);
    assert ([w] + b)[1..] == b;
  }

  /** Removing whitespace never introduces a character the text did not hold. */
  lemma {:induction false} RemoveSpacesKeeps(s: string, c: char)
    requires c !in s
    ensures c !in RemoveSpaces(s)
  {
    if s != [] {
      RemoveSpacesKeeps(s[1..], c);
    }
  }

  // ---------------------------------------------------------------------------
  // strip

  /** `lstrip`: leading whitespace and NULs dropped. */
  function StripLeft(s: string): string {
    if s != [] && IsStripChar(s[0]) then StripLeft(s[1..]) else s
  }

  /** `rstrip`: trailing whitespace and NULs dropped. */
  function StripRight(s: string): string {
    if s != [] && IsStripChar(s[|s| - 1]) then StripRight(s[..|s| - 1]) else s
  }

  /** `strip`: leading and trailing whitespace and NULs removed. */
  function Strip(s: string): string {
    StripRight(StripLeft(s))
  }

  /** `lstrip` leaves the suffix after the leading whitespace and NULs, and only those are dropped. */
  lemma {:induction false} StripLeftSuffix(s: string)
    ensures |StripLeft(s)| <= |s| && StripLeft(s) == s[|s| - |StripLeft(s)|..]
    ensures StripLeft(s) == [] || !IsStripChar(StripLeft(s)[0])
    ensures forall k :: 0 <= k < |s| - |StripLeft(s)| ==> IsStripChar(s[k])
  {
    if s != [] && IsStripChar(s[0]) {
      StripLeftSuffix(s[1..]);
      assert forall k :: 1 <= k < |s| - |StripLeft(s)| ==> s[k] == s[1..][k - 1];
    }
  }

  /** `rstrip` leaves the prefix before the trailing whitespace and NULs, and only those are dropped. */
  lemma {:induction false} StripRightPrefix(s: string)
    ensures StripRight(s) <= s
    ensures StripRight(s) == [] || !IsStripChar(StripRight(s)[|StripRight(s)| - 1])
    ensures forall k :: |StripRight(s)| <= k < |s| ==> IsStripChar(s[k])
  {
    if s != [] && IsStripChar(s[|s| - 1]) {
      StripRightPrefix(s[..|s| - 1]);
    }
  }

  /** The stripped text is empty exactly when the text holds only whitespace and NULs. */
  lemma StripEmpty(s: string)
    ensures Strip(s) == [] <==> forall k :: 0 <= k < |s| ==> IsStripChar(s[k])
  {
    var l := StripLeft(s);
    StripLeftSuffix(s);
    StripRightPrefix(l);
    assert l == s[|s| - |l|..];
  }

  // ---------------------------------------------------------------------------
  // split

  /** What a delimiter given to `split` matches: one fixed character, or `/\D/`. */
  datatype Delim = Char(c: char) | NonDigit

  predicate Separates(d: Delim, c: char) {
    match d
    case Char(x) => c == x
    case NonDigit => !IsDigit(c)
  }

  predicate NoSeparator(s: string, d: Delim) {
    forall k :: 0 <= k < |s| ==> !Separates(d, s[k])
  }

  /**
    Every field of `s` between consecutive separators, in order, empty fields
    included: one more field than there are separators.
   */
  function Fields(s: string, d: Delim): (r: seq<string>)
    ensures |r| >= 1
    ensures forall k :: 0 <= k < |r| ==> NoSeparator(r[k], d)
  {
    if s == [] then [[]]
    else
      var rest := Fields(s[1..], d);
      if Separates(d, s[0]) then [[]] + rest
      else [[s[0]] + rest[0]] + rest[1..]
  }

  /** `split` with no limit: trailing empty fields are suppressed. */
  function DropTrailingEmpty(fs: seq<string>): (r: seq<string>)
    ensures r <= fs
    ensures r == [] || r[|r| - 1] != []
    ensures forall k :: |r| <= k < |fs| ==> fs[k] == []
  {
    if fs == [] then []
    else if fs[|fs| - 1] == [] then DropTrailingEmpty(fs[..|fs| - 1])
    else fs
  }

  /** `s.split(",")`, `s.split("\t")`, `s.split(/\D/)`, ...: Ruby's split on a delimiter. */
  function Split(s: string, d: Delim): (r: seq<string>)
    ensures forall k :: 0 <= k < |r| ==> NoSeparator(r[k], d)
    ensures r == [] || r[|r| - 1] != []
  {
    DropTrailingEmpty(Fields(s, d))
  }

  /** `fields.join(sep)` for a one-character separator. */
  function Join(fs: seq<string>, c: char): string {
    if fs == [] then []
    else if |fs| == 1 then fs[0]
    else fs[0] + [c] + Join(fs[1..], c)
  }

  /** The concatenation of the fields (`fields.join`). */
  function Concat(fs: seq<string>): string {
    if fs == [] then [] else fs[0] + Concat(fs[1..])
  }

  /** Joining the fields back with the separator gives the text again. */
  lemma {:induction false} JoinFields(s: string, c: char)
    ensures Join(Fields(s, Char(c)), c) == s
  {
    if s != [] {
      var rest := Fields(s[1..], Char(c));
      JoinFields(s[1..], c);
      if s[0] != c {
        var fs := Fields(s, Char(c));
        assert fs[1..] == rest[1..];
        if |rest| > 1 {
          assert Join(rest, c) == rest[0] + [c] + Join(rest[1..], c);
        }
      }
    }
  }

  lemma {:induction false} JoinDropped(fs: seq<string>, c: char)
    requires fs != []
    ensures exists n: nat :: Join(fs, c) == Join(DropTrailingEmpty(fs), c) + Repeat(c, n)
  {
    var r := DropTrailingEmpty(fs);
    if r != fs {
      var m := |fs| - 1;
      assert fs[m] == [];
      var init := fs[..m];
      assert DropTrailingEmpty(fs) == DropTrailingEmpty(init);
      if init == [] {
        assert Join(fs, c) == [] == Join(r, c) + Repeat(c, 0);
      } else {
        JoinDropped(init, c);
        var n: nat :| Join(init, c) == Join(r, c) + Repeat(c, n);
        JoinSnoc(init, [], c);
        assert init + [fs[m]] == fs;
        assert Join(fs, c) == Join(init, c) + [c];
        assert Repeat(c, n) + [c] == Repeat(c, n + 1);
        assert Join(fs, c) == Join(r, c) + Repeat(c, n + 1);
      }
    } else {
      assert Join(fs, c) == Join(r, c) + Repeat(c, 0);
    }
  }

  lemma {:induction false} JoinSnoc(fs: seq<string>, x: string, c: char)
    requires fs != []
    ensures Join(fs + [x], c) == Join(fs, c) + [c] + x
  {
    if |fs| == 1 {
      assert (fs + [x])[1..] == [x];
    } else {
      assert (fs + [x])[1..] == fs[1..] + [x];
      JoinSnoc(fs[1..], x, c);
    }
  }

  function Repeat(c: char, n: nat): (r: string)
    ensures |r| == n && forall k :: 0 <= k < n ==> r[k] == c
  {
    if n == 0 then [] else Repeat(c, n - 1) + [c]
  }

  /**
    What `split` on one character loses: joining its result with that character
    gives the text back up to a run of that character at its end.
   */
  lemma SplitJoin(s: string, c: char)
    ensures exists n: nat :: s == Join(Split(s, Char(c)), c) + Repeat(c, n)
  {
    JoinFields(s, c);
    JoinDropped(Fields(s, Char(c)), c);
  }

  /** One step of `Fields`: a leading separator closes an empty field. */
  lemma FieldsConsSeparator(c: char, t: string, d: Delim)
    requires Separates(d, c)
    ensures Fields([c] + t, d) == [[]] + Fields(t, d)
  {
    assert ([c] + t)[1..] == t;
  }

  /** One step of `Fields`: any other leading character starts the first field. */
  lemma FieldsConsPlain(c: char, t: string, d: Delim)
    requires !Separates(d, c)
    ensures Fields([c] + t, d) == [[c] + Fields(t, d)[0]] + Fields(t, d)[1..]
  {
    assert ([c] + t)[1..] == t;
  }

  /** A separator at the very end only adds an empty trailing field, which `split` drops. */
  lemma SplitTrailingSeparator(s: string, c: char)
    ensures Split(s + [c], Char(c)) == Split(s, Char(c))
  {
    var d := Char(c);
    FieldsAppend(s, c, [], d);
    assert s + [c] + [] == s + [c];
    var fs := Fields(s, d);
    assert Fields([], d) == [[]];
    assert (fs + [[]])[..|fs|] == fs;
  }

  /** Two separators in a row keep the empty field between them. */
  lemma FieldsAdjacentSeparators(p: string, x: char, q: string, d: Delim)
    requires Separates(d, x)
    ensures Fields(p + [x, x] + q, d) == Fields(p, d) + [[]] + Fields(q, d)
  {
    assert p + [x, x] + q == p + [x] + ([x] + q);
    FieldsAppend(p, x, [x] + q, d);
    FieldsConsSeparator(x, q, d);
  }

  /** A separator splits the fields of the text around it. */
  lemma {:induction false} FieldsAppend(p: string, x: char, q: string, d: Delim)
    requires Separates(d, x)
    ensures Fields(p + [x] + q, d) == Fields(p, d) + Fields(q, d)
  {
    if p == [] {
      assert p + [x] + q == [x] + q;
      FieldsConsSeparator(x, q, d);
      assert Fields(p, d) == [[]];
    } else {
      FieldsAppend(p[1..], x, q, d);
      FieldsAppendStep(p[0], p[1..], x, q, d);
      assert [p[0]] + p[1..] == p;
    }
  }

  /** The inductive step of `FieldsAppend`: one more character in front. */
  lemma FieldsAppendStep(c: char, p: string, x: char, q: string, d: Delim)
    requires Fields(p + [x] + q, d) == Fields(p, d) + Fields(q, d)
    ensures Fields([c] + p + [x] + q, d) == Fields([c] + p, d) + Fields(q, d)
  {
    var t := p + [x] + q;
    assert [c] + p + [x] + q == [c] + t;
    if Separates(d, c) {
      FieldsConsSeparator(c, t, d);
      FieldsConsSeparator(c, p, d);
      ConsEmptyField(Fields(p, d), Fields(q, d));
    } else {
      FieldsConsPlain(c, t, d);
      FieldsConsPlain(c, p, d);
      ExtendFirstField(c, Fields(p, d), Fields(q, d));
    }
  }

  lemma ConsEmptyField(fp: seq<string>, fq: seq<string>)
    ensures [[]] + (fp + fq) == ([[]] + fp) + fq
  {
  }

  lemma ExtendFirstField(c: char, fp: seq<string>, fq: seq<string>)
    requires fp != []
    ensures [[c] + (fp + fq)[0]] + (fp + fq)[1..] == ([[c] + fp[0]] + fp[1..]) + fq
  {
    assert (fp + fq)[0] == fp[0];
    assert (fp + fq)[1..] == fp[1..] + fq;
  }

  /** A text without the separator is a single field. */
  lemma {:induction false} FieldsOfPlain(q: string, d: Delim)
    requires NoSeparator(q, d)
    ensures Fields(q, d) == [q]
  {
    if q != [] {
      assert NoSeparator(q[1..], d) by {
        forall k | 0 <= k < |q| - 1 ensures !Separates(d, q[1..][k]) {
          assert q[1..][k] == q[k + 1];
        }
      }
      FieldsOfPlain(q[1..], d);
      assert [q[0]] + q[1..] == q;
    }
  }

  /** Every field is empty exactly when every character is a separator. */
  lemma {:induction false} FieldsAllEmpty(s: string, d: Delim)
    ensures (forall k :: 0 <= k < |Fields(s, d)| ==> Fields(s, d)[k] == [])
            <==> (forall k :: 0 <= k < |s| ==> Separates(d, s[k]))
  {
    if s != [] {
      FieldsAllEmpty(s[1..], d);
      var rest := Fields(s[1..], d);
      if Separates(d, s[0]) {
        var fs := Fields(s, d);
        assert fs == [[]] + rest;
        assert (forall k :: 0 <= k < |fs| ==> fs[k] == []) <==> (forall k :: 0 <= k < |rest| ==> rest[k] == []) by {
          forall k | 0 <= k < |rest| ensures fs[k + 1] == rest[k] { }
        }
        assert (forall k :: 0 <= k < |s| ==> Separates(d, s[k])) <==> (forall k :: 0 <= k < |s| - 1 ==> Separates(d, s[1..][k])) by {
          forall k | 0 <= k < |s| - 1 ensures s[1..][k] == s[k + 1] { }
        }
      } else {
        assert Fields(s, d)[0] == [s[0]] + rest[0];
      }
    }
  }

  /** `split(c)` gives no field at all exactly when the text is nothing but `c` (or empty). */
  lemma SplitEmpty(s: string, c: char)
    ensures Split(s, Char(c)) == [] <==> forall k :: 0 <= k < |s| ==> s[k] == c
  {
    var d := Char(c);
    var fs := Fields(s, d);
    FieldsAllEmpty(s, d);
    var r := Split(s, d);
    assert r == DropTrailingEmpty(fs);
    assert (forall k :: 0 <= k < |s| ==> s[k] == c) <==> (forall k :: 0 <= k < |s| ==> Separates(d, s[k]));
    if r != [] {
      assert r[|r| - 1] == fs[|r| - 1] && r[|r| - 1] != [];
    } else {
      assert forall k :: 0 <= k < |fs| ==> fs[k] == [];
    }
  }

  /** The last field of `split(c)` is what follows the last `c`, when that is not empty. */
  lemma SplitLast(p: string, c: char, q: string)
    requires q != [] && NoSeparator(q, Char(c))
    ensures var r := Split(p + [c] + q, Char(c)); r != [] && r[|r| - 1] == q
  {
    FieldsAppend(p, c, q, Char(c));
    FieldsOfPlain(q, Char(c));
  }

  /** Every character of every field is a character of the text. */
  lemma {:induction false} FieldChars(s: string, d: Delim)
    ensures forall k, x :: 0 <= k < |Fields(s, d)| && x in Fields(s, d)[k] ==> x in s
  {
    if s != [] {
      FieldChars(s[1..], d);
      var rest := Fields(s[1..], d);
      var r := Fields(s, d);
      forall k, x | 0 <= k < |r| && x in r[k] ensures x in s {
        if Separates(d, s[0]) {
          if k > 0 {
            assert r[k] == rest[k - 1];
            assert x in s[1..];
          }
        } else if k == 0 {
          assert r[0] == [s[0]] + rest[0];
          if x != s[0] {
            assert x in rest[0];
            assert x in s[1..];
          }
        } else {
          assert r[k] == rest[k];
          assert x in s[1..];
        }
      }
    }
  }

  /** Every character of every field of `split` is a character of the text. */
  lemma SplitChars(s: string, d: Delim)
    ensures forall k, x :: 0 <= k < |Split(s, d)| && x in Split(s, d)[k] ==> x in s
  {
    FieldChars(s, d);
    var r := Split(s, d);
    forall k | 0 <= k < |r| ensures r[k] == Fields(s, d)[k] {
    }
  }

  /** The digits of a text, in order. */
  function Digits(s: string): (r: string)
    ensures AllDigits(r)
  {
    if s == [] then [] else (if IsDigit(s[0]) then [s[0]] else []) + Digits(s[1..])
  }

  lemma {:induction false} DigitsOfRemoveSpaces(s: string)
    ensures Digits(RemoveSpaces(s)) == Digits(s)
  {
    if s != [] {
      DigitsOfRemoveSpaces(s[1..]);
      if !IsSpace(s[0]) {
        var t := [s[0]] + RemoveSpaces(s[1..]);
        assert t[0] == s[0] && t[1..] == RemoveSpaces(s[1..]);
      }
    }
  }

  lemma {:induction false} ConcatAppend(a: seq<string>, b: seq<string>)
    ensures Concat(a + b) == Concat(a) + Concat(b)
  {
    if a == [] {
      assert a + b == b;
    } else {
      assert (a + b)[0] == a[0] && (a + b)[1..] == a[1..] + b;
      ConcatAppend(a[1..], b);
    }
  }

  lemma {:induction false} ConcatDropped(fs: seq<string>)
    ensures Concat(DropTrailingEmpty(fs)) == Concat(fs)
  {
    if fs != [] && fs[|fs| - 1] == [] {
      var init := fs[..|fs| - 1];
      ConcatDropped(init);
      assert init + [[]] == fs;
      ConcatAppend(init, [[]]);
    }
  }

  /** Splitting on `/\D/` keeps exactly the digits, in order, spread over the fields. */
  lemma {:induction false} NonDigitFieldsConcat(s: string)
    ensures Concat(Fields(s, NonDigit)) == Digits(s)
  {
    if s != [] {
      NonDigitFieldsConcat(s[1..]);
      var rest := Fields(s[1..], NonDigit);
      if IsDigit(s[0]) {
        var fs := Fields(s, NonDigit);
        assert fs[0] == [s[0]] + rest[0] && fs[1..] == rest[1..];
        assert Concat(rest) == rest[0] + Concat(rest[1..]);
      } else {
        assert Fields(s, NonDigit)[1..] == rest;
      }
    }
  }

  lemma NonDigitSplitConcat(s: string)
    ensures Concat(Split(s, NonDigit)) == Digits(s)
  {
    ConcatDropped(Fields(s, NonDigit));
    NonDigitFieldsConcat(s);
  }

  // ---------------------------------------------------------------------------
  // awk-style split(" ")

  /** Length of the leading run of non-whitespace characters. */
  function WordLength(s: string): (n: nat)
    ensures n <= |s|
    ensures NoSpace(s[..n])
    ensures n < |s| ==> IsSpace(s[n])
  {
    if s == [] || IsSpace(s[0]) then 0 else 1 + WordLength(s[1..])
  }

  /**
    `s.split(" ")`: the maximal runs of non-whitespace characters, leading and
    trailing whitespace and runs of whitespace ignored.
   */
  function AwkSplit(s: string): (r: seq<string>)
    ensures forall k :: 0 <= k < |r| ==> r[k] != [] && NoSpace(r[k])
    decreases |s|
  {
    if s == [] then []
    else if IsSpace(s[0]) then AwkSplit(s[1..])
    else
      var n := WordLength(s);
      [s[..n]] + AwkSplit(s[n..])
  }

  /** A whitespace character right after the text ends its leading word where the text's own does. */
  lemma {:induction false} WordLengthBeforeSpace(p: string, t: string)
    requires t != [] && IsSpace(t[0])
    ensures WordLength(p + t) == WordLength(p)
    decreases |p|
  {
    if p == [] {
      assert p + t == t;
    } else if !IsSpace(p[0]) {
      assert (p + t)[1..] == p[1..] + t;
      WordLengthBeforeSpace(p[1..], t);
    }
  }

  /** A whitespace character cuts the text: the words are those of either side, in order. */
  lemma {:induction false} AwkSplitAtSpace(p: string, w: char, q: string)
    requires IsSpace(w)
    ensures AwkSplit(p + [w] + q) == AwkSplit(p) + AwkSplit(q)
    decreases |p|
  {
    var s := p + [w] + q;
    if p == [] {
      assert s[1..] == q;
    } else if IsSpace(p[0]) {
      assert s[1..] == p[1..] + [w] + q;
      AwkSplitAtSpace(p[1..], w, q);
    } else {
      WordLengthBeforeSpace(p, [w] + q);
      assert s == p + ([w] + q);
      var n := WordLength(p);
      assert s[..n] == p[..n];
      assert s[n..] == p[n..] + [w] + q;
      AwkSplitAtSpace(p[n..], w, q);
    }
  }

  /** A non-empty text without whitespace is one word, itself. */
  lemma AwkSplitOfWord(q: string)
    requires q != [] && NoSpace(q)
    ensures AwkSplit(q) == [q]
  {
    assert WordLength(q) == |q|;
    assert q[..|q|] == q && q[|q|..] == [];
  }

  /** Every character of every word is a character of the text. */
  lemma {:induction false} AwkSplitChars(s: string)
    ensures forall k, x :: 0 <= k < |AwkSplit(s)| && x in AwkSplit(s)[k] ==> x in s
    decreases |s|
  {
    if s != [] {
      var r := AwkSplit(s);
      if IsSpace(s[0]) {
        AwkSplitChars(s[1..]);
        forall k, x | 0 <= k < |r| && x in r[k] ensures x in s {
          assert x in s[1..];
        }
      } else {
        var n := WordLength(s);
        AwkSplitChars(s[n..]);
        forall k, x | 0 <= k < |r| && x in r[k] ensures x in s {
          if k == 0 {
            assert x in s[..n];
          } else {
            assert r[k] == AwkSplit(s[n..])[k - 1];
            assert x in s[n..];
          }
        }
      }
    }
  }

  /** The words of an awk split, run together, are the text without its whitespace. */
  lemma {:induction false} AwkSplitConcat(s: string)
    ensures Concat(AwkSplit(s)) == RemoveSpaces(s)
    decreases |s|
  {
    if s != [] {
      if IsSpace(s[0]) {
        AwkSplitConcat(s[1..]);
      } else {
        var n := WordLength(s);
        AwkSplitConcat(s[n..]);
        assert s == s[..n] + s[n..];
        RemoveSpacesAppend(s[..n], s[n..]);
      }
    }
  }

  // ---------------------------------------------------------------------------
  // gsub!(c, "_")

  /** `s.gsub(from, to)` for one-character strings: every `from` becomes `to`. */
  function Replaced(s: string, from: char, to: char): (r: string)
    ensures |r| == |s|
  {
    if s == [] then [] else [if s[0] == from then to else s[0]] + Replaced(s[1..], from, to)
  }

  lemma {:induction false} ReplacedAt(s: string, from: char, to: char, k: nat)
    requires k < |s|
    ensures Replaced(s, from, to)[k] == if s[k] == from then to else s[k]
  {
    if k > 0 {
      ReplacedAt(s[1..], from, to, k - 1);
    }
  }
}
