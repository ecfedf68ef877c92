/**
  The ID-list parser of the rehydration script: the text of one in-box file
  becomes the ordered list of ID tokens to request. The delimiter is chosen by
  a fixed precedence (comma, tab, newline, space, then any non-digit); IDs are
  not validated here, the API rejects malformed ones.
 */
module IdListParser {
  import opened RubyString

  /**
    `parseRequestList`: `include?` of a one-character string is written as `in`.
    The comma branch (and the catch-all) first delete all whitespace with
    `gsub!(/\s+/, "")`.
   */
  function ParseRequestList(contents: string): (ids: seq<string>)
    ensures forall k :: 0 <= k < |ids| ==> ',' !in ids[k]
    ensures contents == [] ==> ids == []
  {
    if ',' in contents then
      Split(RemoveSpaces(contents), Char(','))
    else if '\t' in contents then
      SplitChars(contents, Char('\t'));
      Split(contents, Char('\t'))
    else if '\n' in contents then
      SplitChars(contents, Char('\n'));
      Split(contents, Char('\n'))
    else if ' ' in contents then
      AwkSplitChars(contents);
      AwkSplit(contents)
    else
      RemoveSpacesKeeps(contents, ',');
      SplitChars(RemoveSpaces(contents), NonDigit);
      Split(RemoveSpaces(contents), NonDigit)
  }

  /**
    A comma anywhere wins: all whitespace (tabs and newlines included) is
    deleted and the text is split on commas alone, so no token holds a comma or
    whitespace, and joining the tokens with commas gives back the
    whitespace-free text up to trailing commas.
   */
  lemma CommaPrecedence(contents: string)
    requires ',' in contents
    ensures var ids := ParseRequestList(contents);
      && ids == Split(RemoveSpaces(contents), Char(','))
      && (forall k :: 0 <= k < |ids| ==> NoSpace(ids[k]) && ',' !in ids[k])
      && exists n: nat :: RemoveSpaces(contents) == Join(ids, ',') + Repeat(',', n)
  {
    var ids := ParseRequestList(contents);
    var t := RemoveSpaces(contents);
    SplitChars(t, Char(','));
    forall k | 0 <= k < |ids| ensures NoSpace(ids[k]) {
      forall i | 0 <= i < |ids[k]| ensures !IsSpace(ids[k][i]) {
        assert ids[k][i] in ids[k];
        assert ids[k][i] in t;
      }
    }
    SplitJoin(t, ',');
  }

  /** Without a comma, a tab selects the tab branch: tokens hold neither tab nor comma. */
  lemma TabBranch(contents: string)
    requires ',' !in contents && '\t' in contents
    ensures var ids := ParseRequestList(contents);
      && ids == Split(contents, Char('\t'))
      && (forall k :: 0 <= k < |ids| ==> '\t' !in ids[k] && ',' !in ids[k])
      && exists n: nat :: contents == Join(ids, '\t') + Repeat('\t', n)
  {
    var ids := ParseRequestList(contents);
    forall k | 0 <= k < |ids| ensures '\t' !in ids[k] {
      assert NoSeparator(ids[k], Char('\t'));
    }
    SplitJoin(contents, '\t');
  }

  /** With neither comma nor tab, a newline selects the newline branch. */
  lemma NewlineBranch(contents: string)
    requires ',' !in contents && '\t' !in contents && '\n' in contents
    ensures var ids := ParseRequestList(contents);
      && ids == Split(contents, Char('\n'))
      && (forall k :: 0 <= k < |ids| ==> '\n' !in ids[k] && '\t' !in ids[k] && ',' !in ids[k])
      && exists n: nat :: contents == Join(ids, '\n') + Repeat('\n', n)
  {
    var ids := ParseRequestList(contents);
    SplitChars(contents, Char('\n'));
    forall k | 0 <= k < |ids| ensures '\n' !in ids[k] && '\t' !in ids[k] {
      assert NoSeparator(ids[k], Char('\n'));
    }
    SplitJoin(contents, '\n');
  }

  /**
    Only spaces left as delimiters: the awk-style split gives non-empty,
    whitespace-free tokens that together spell the text without its whitespace.
   */
  lemma SpaceBranch(contents: string)
    requires ',' !in contents && '\t' !in contents && '\n' !in contents && ' ' in contents
    ensures var ids := ParseRequestList(contents);
      && ids == AwkSplit(contents)
      && (forall k :: 0 <= k < |ids| ==> ids[k] != [] && NoSpace(ids[k]))
      && Concat(ids) == RemoveSpaces(contents)
  {
    AwkSplitConcat(contents);
  }

  /**
    The catch-all splits on every non-digit: each token is a (possibly empty)
    run of digits, and the tokens together are exactly the digits of the text.
   */
  lemma NonDigitBranch(contents: string)
    requires ',' !in contents && '\t' !in contents && '\n' !in contents && ' ' !in contents
    ensures var ids := ParseRequestList(contents);
      && ids == Split(RemoveSpaces(contents), NonDigit)
      && (forall k :: 0 <= k < |ids| ==> AllDigits(ids[k]))
      && Concat(ids) == Digits(contents)
  {
    var ids := ParseRequestList(contents);
    forall k | 0 <= k < |ids| ensures AllDigits(ids[k]) {
      assert NoSeparator(ids[k], NonDigit);
    }
    NonDigitSplitConcat(RemoveSpaces(contents));
    DigitsOfRemoveSpaces(contents);
  }

  /** Three IDs separated by tabs (and holding no comma) are read back as those three IDs. */
  lemma TabSeparatedIds(a: string, b: string, c: string)
    requires NoSeparator(a, Char('\t')) && NoSeparator(b, Char('\t')) && NoSeparator(c, Char('\t'))
    requires ',' !in a && ',' !in b && ',' !in c && c != []
    ensures ParseRequestList(a + ['\t'] + b + ['\t'] + c) == [a, b, c]
  {
    var d := Char('\t');
    var s := a + ['\t'] + b + ['\t'] + c;
    assert ',' !in s && s[|a|] == '\t';
    assert s == a + ['\t'] + (b + ['\t'] + c);
    FieldsOfPlain(a, d);
    FieldsOfPlain(b, d);
    FieldsOfPlain(c, d);
    FieldsAppend(b, '\t', c, d);
    FieldsAppend(a, '\t', b + ['\t'] + c, d);
    assert Fields(s, d) == [a, b, c];
  }

  /** In the tab branch a trailing tab (a tab after the last ID) adds no empty ID. */
  lemma TrailingTabIgnored(contents: string)
    requires ',' !in contents && '\t' in contents
    ensures ParseRequestList(contents + ['\t']) == ParseRequestList(contents)
  {
    SplitTrailingSeparator(contents, '\t');
  }

  /** Two IDs separated by one space (and holding no whitespace or comma) are read back as those two IDs. */
  lemma SpaceSeparatedIds(a: string, b: string)
    requires a != [] && b != [] && NoSpace(a) && NoSpace(b) && ',' !in a && ',' !in b
    ensures ParseRequestList(a + [' '] + b) == [a, b]
  {
    var s := a + [' '] + b;
    assert ',' !in s && s[|a|] == ' ';
    assert '\t' !in s by {
      forall k | 0 <= k < |s| ensures s[k] != '\t' {
        if k < |a| { assert s[k] == a[k]; } else if k > |a| { assert s[k] == b[k - |a| - 1]; }
      }
    }
    assert '\n' !in s by {
      forall k | 0 <= k < |s| ensures s[k] != '\n' {
        if k < |a| { assert s[k] == a[k]; } else if k > |a| { assert s[k] == b[k - |a| - 1]; }
      }
    }
    AwkSplitAtSpace(a, ' ', b);
    AwkSplitOfWord(a);
    AwkSplitOfWord(b);
  }

  /**
    In the catch-all, one non-digit (not whitespace) between two runs of digits
    cuts the text into those two runs; an empty first run is kept as an empty ID.
   */
  lemma NonDigitSeparatedIds(a: string, x: char, b: string)
    requires AllDigits(a) && AllDigits(b) && b != []
    requires !IsDigit(x) && !IsSpace(x) && x != ','
    ensures ParseRequestList(a + [x] + b) == [a, b]
  {
    var s := a + [x] + b;
    forall k | 0 <= k < |s| ensures s[k] == x || IsDigit(s[k]) {
      if k < |a| { assert s[k] == a[k]; } else if k > |a| { assert s[k] == b[k - |a| - 1]; }
    }
    assert ',' !in s && '\t' !in s && '\n' !in s && ' ' !in s;
    assert NoSpace(s);
    FieldsOfPlain(a, NonDigit);
    FieldsOfPlain(b, NonDigit);
    FieldsAppend(a, x, b, NonDigit);
    assert Fields(s, NonDigit) == [a, b];
  }

  /** A file holding only whitespace and NULs gives no ID once stripped. */
  lemma BlankFileHasNoIds(contents: string)
    requires forall k :: 0 <= k < |contents| ==> IsStripChar(contents[k])
    ensures ParseRequestList(Strip(contents)) == []
  {
    StripEmpty(contents);
  }

  /** In a comma file a whitespace character anywhere, a tab or newline included, changes no ID. */
  lemma CommaFileIgnoresWhitespace(a: string, w: char, b: string)
    requires ',' in a + b && IsSpace(w)
    ensures ParseRequestList(a + [w] + b) == ParseRequestList(a + b)
  {
    var k :| 0 <= k < |a + b| && (a + b)[k] == ',';
    if k < |a| {
      assert (a + [w] + b)[k] == ',';
    } else {
      assert (a + [w] + b)[k + 1] == ',';
    }
    RemoveSpacesDropsSpace(a, w, b);
  }
}
