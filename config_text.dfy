/**
 * The text-level parts of reading a configuration: comments stripped from
 * a parameter file, an inline `[{...},{...}]` array cut into one JSON text
 * per configuration, the recognition of a file that lists other parameter
 * files, and the case-insensitive reading of boolean values.
 */
module ConfigText {
  import opened Common
  import opened Text

  /**
   * One line of a parameter file with its comment removed: the text before
   * the first `#`, cut again at the first newline.
   */
  function StripComment(line: string): string
  {
    Split(Split(line, '#')[0], '\n')[0]
  }

  /**
   * The stripped line is the longest prefix of the line that holds neither
   * `#` nor a newline.
   */
  lemma StripCommentSpec(line: string)
    ensures var r := StripComment(line);
      StartsWith(line, r) && '#' !in r && '\n' !in r &&
      (|r| == |line| || line[|r|] == '#' || line[|r|] == '\n')
  {
    var a := Split(line, '#')[0];
    SplitHead(line, '#');
    SplitHead(a, '\n');
    var r := StripComment(line);
    assert a[..|r|] == r;
    assert line[..|a|] == a;
    assert line[..|r|] == r;
    if |r| < |a| {
      assert line[|r|] == a[|r|];
    }
  }

  /** The text of a parameter file once every line has had its comment stripped. */
  function StrippedText(lines: seq<string>): string
  {
    if lines == [] then "" else StrippedText(lines[..|lines| - 1]) + StripComment(lines[|lines| - 1])
  }

  /** The loop that joins the stripped lines of a parameter file into one JSON text. */
  method JoinStrippedLines(lines: seq<string>) returns (configStr: string)
    ensures configStr == StrippedText(lines)
    ensures '#' !in configStr && '\n' !in configStr
  {
    configStr := "";
    for i := 0 to |lines|
      invariant configStr == StrippedText(lines[..i])
      invariant '#' !in configStr && '\n' !in configStr
    {
      StripCommentSpec(lines[i]);
      assert lines[..i + 1][..i] == lines[..i];
      configStr := configStr + StripComment(lines[i]);
    }
    assert lines[..|lines|] == lines;
  }

  /** Every line is a comment-free text followed by one newline, as `readlines` gives them. */
  predicate PlainLines(texts: seq<string>)
  {
    forall i :: 0 <= i < |texts| ==> '#' !in texts[i] && '\n' !in texts[i]
  }

  function WithNewlines(texts: seq<string>): seq<string>
  {
    seq(|texts|, i requires 0 <= i < |texts| => texts[i] + "\n")
  }

  function Concat(texts: seq<string>): string
  {
    if texts == [] then "" else Concat(texts[..|texts| - 1]) + texts[|texts| - 1]
  }

  /** A file without comments loses only its line breaks. */
  lemma {:induction false} StrippedTextOfPlainLines(texts: seq<string>)
    requires PlainLines(texts)
    ensures StrippedText(WithNewlines(texts)) == Concat(texts)
    decreases |texts|
  {
    if texts != [] {
      var n := |texts| - 1;
      assert WithNewlines(texts)[..n] == WithNewlines(texts[..n]);
      StrippedTextOfPlainLines(texts[..n]);
      StripCommentOfPlainLine(texts[n]);
    }
  }

  /** A comment-free line loses only its newline. */
  lemma StripCommentOfPlainLine(text: string)
    requires '#' !in text && '\n' !in text
    ensures StripComment(text + "\n") == text
  {
    var line := text + "\n";
    StripCommentSpec(line);
    var r := StripComment(line);
    assert line[|text|] == '\n';
    assert forall i :: 0 <= i < |text| ==> line[i] == text[i];
    assert forall i :: 0 <= i < |r| ==> r[i] == line[i];
    assert |r| <= |text|;
    assert |r| >= |text|;
    assert r == line[..|r|] == text;
  }

  // ----- the inline array form `[{...},{...}]` -----

  const Separator := "},{"

  /**
   * One piece of an inline array, re-wrapped as a JSON object: a leading `[`
   * and a trailing `]` are dropped, then `{` and `}` are added where missing.
   */
  function WrapPiece(piece: string): (r: string)
    ensures |r| >= 2 && r[0] == '{' && r[|r| - 1] == '}'
  {
    var a := if piece != [] && piece[0] == '[' then piece[1..] else piece;
    var b := if a != [] && a[|a| - 1] == ']' then a[..|a| - 1] else a;
    var c := if b != [] && b[0] == '{' then b else "{" + b;
    assert c[0] == '{';
    if c[|c| - 1] == '}' then
      assert |c| >= 2;
      c
    else
      c + "}"
  }

  /**
   * The pieces the partition loop produces: the text is cut at each `},{`,
   * from left to right, and each piece re-wrapped.
   */
  function InlinePieces(s: string): seq<string>
    decreases |s|
  {
    if s == [] then []
    else
      var k := Find(s, Separator);
      if k < 0 then [WrapPiece(s)] else [WrapPiece(s[..k])] + InlinePieces(s[k + |Separator|..])
  }

  /** The `while len(configStr)` loop over `partition("},{")`. */
  method SplitInlineArray(s: string) returns (jsonstrings: seq<string>)
    ensures jsonstrings == InlinePieces(s)
  {
    var configStr := s;
    jsonstrings := [];
    while |configStr| > 0
      invariant jsonstrings + InlinePieces(configStr) == InlinePieces(s)
      decreases |configStr|
    {
      var k := Find(configStr, Separator);
      var before, after;
      if k < 0 {
        before, after := configStr, "";
      } else {
        before, after := configStr[..k], configStr[k + |Separator|..];
      }
      assert InlinePieces(configStr) == [WrapPiece(before)] + InlinePieces(after);
      assert (jsonstrings + [WrapPiece(before)]) + InlinePieces(after)
          == jsonstrings + ([WrapPiece(before)] + InlinePieces(after));
      jsonstrings := jsonstrings + [WrapPiece(before)];
      configStr := after;
    }
    assert InlinePieces(configStr) == [];
    assert jsonstrings + [] == jsonstrings;
  }

  /** A text that opens with `{` and closes with `}`. */
  predicate Braced(p: string)
  {
    |p| >= 2 && p[0] == '{' && p[|p| - 1] == '}'
  }

  /** Every piece is a braced object text, and a non-empty text gives at least one piece. */
  lemma {:induction false} InlinePiecesAreObjects(s: string)
    ensures s != [] ==> |InlinePieces(s)| >= 1
    ensures forall i :: 0 <= i < |InlinePieces(s)| ==> Braced(InlinePieces(s)[i])
    decreases |s|
  {
    if s != [] {
      var k := Find(s, Separator);
      if k >= 0 {
        var rest := s[k + |Separator|..];
        InlinePiecesAreObjects(rest);
        BracedCons(WrapPiece(s[..k]), InlinePieces(rest));
        assert InlinePieces(s) == [WrapPiece(s[..k])] + InlinePieces(rest);
      } else {
        assert InlinePieces(s) == [WrapPiece(s)];
      }
    }
  }

  lemma BracedCons(w: string, rest: seq<string>)
    requires Braced(w)
    requires forall i :: 0 <= i < |rest| ==> Braced(rest[i])
    ensures forall i :: 0 <= i < |[w] + rest| ==> Braced(([w] + rest)[i])
  {
  }

  /** No `},{` inside a text, said one character at a time. */
  predicate NoSeparator(c: string)
  {
    forall i :: 0 <= i < |c| - 2 ==> !(c[i] == '}' && c[i + 1] == ',' && c[i + 2] == '{')
  }

  /**
   * The inside of one JSON object as the launcher writes it: no `},{`, and it
   * neither starts with a bracket or brace nor ends with one.
   */
  predicate PlainObjectBody(c: string)
  {
    NoSeparator(c) &&
    (c != [] ==> c[0] != '[' && c[0] != '{' && c[|c| - 1] != ']' && c[|c| - 1] != '}')
  }

  function ObjectText(c: string): string
  {
    "{" + c + "}"
  }

  function ObjectTexts(cs: seq<string>): seq<string>
  {
    if cs == [] then [] else [ObjectText(cs[0])] + ObjectTexts(cs[1..])
  }

  /** `[` + the objects joined by `,` + `]`. */
  function ArrayText(cs: seq<string>): string
    requires |cs| >= 1
  {
    "[{" + ArrayTail(cs)
  }

  /** The array text after its opening `[{`. */
  function ArrayTail(cs: seq<string>): string
    requires |cs| >= 1
    decreases |cs|
  {
    if |cs| == 1 then cs[0] + "}]" else cs[0] + Separator + ArrayTail(cs[1..])
  }

  lemma OccursSeparator(s: string, j: int)
    ensures OccursAt(s, Separator, j) <==>
      0 <= j && j + 3 <= |s| && s[j] == '}' && s[j + 1] == ',' && s[j + 2] == '{'
  {
    if 0 <= j && j + 3 <= |s| {
      var w := s[j..j + 3];
      assert w[0] == s[j] && w[1] == s[j + 1] && w[2] == s[j + 2];
      if s[j] == '}' && s[j + 1] == ',' && s[j + 2] == '{' {
        assert w == Separator;
      }
    }
  }

  /**
   * In `pre + c + rest`, no separator starts before the end of `c` when
   * `pre` is empty or `[{`, `c` is a plain body and `rest` starts with `}`.
   */
  lemma NoSeparatorBefore(s: string, pre: string, c: string, rest: string)
    requires s == pre + c + rest
    requires pre == "" || pre == "[{"
    requires PlainObjectBody(c)
    requires rest != [] && rest[0] == '}'
    ensures forall j :: 0 <= j < |pre| + |c| ==> !OccursAt(s, Separator, j)
  {
    var p := |pre|;
    forall j | 0 <= j < p + |c|
      ensures !OccursAt(s, Separator, j)
    {
      OccursSeparator(s, j);
      if j + 3 <= |s| {
        if j < p {
          assert s[j] == pre[j];
        } else if j + 2 < p + |c| {
          assert c[j - p] == s[j] && c[j - p + 1] == s[j + 1] && c[j - p + 2] == s[j + 2];
        } else if j + 1 < p + |c| {
          assert s[j + 2] == rest[0];
        } else {
          assert s[j] == c[|c| - 1];
        }
      }
    }
  }

  lemma WrapMiddle(c: string)
    requires PlainObjectBody(c)
    ensures WrapPiece(c) == ObjectText(c)
  {
    if c == [] {
      assert WrapPiece(c) == "{}";
    } else {
      assert c[0] != '[' && c[|c| - 1] != ']';
      var b := "{" + c;
      assert b[0] == '{' && b[|b| - 1] == c[|c| - 1];
      assert WrapPiece(c) == b + "}";
    }
  }

  lemma WrapFirst(c: string)
    requires PlainObjectBody(c)
    ensures WrapPiece("[{" + c) == ObjectText(c)
  {
    var a := ("[{" + c)[1..];
    assert a == "{" + c;
    assert a[|a| - 1] != ']' && a[|a| - 1] != '}';
  }

  lemma WrapLast(pre: string, c: string)
    requires pre == "" || pre == "[{"
    requires PlainObjectBody(c)
    ensures WrapPiece(pre + c + "}]") == ObjectText(c)
  {
    var s := pre + c + "}]";
    var a := if s != [] && s[0] == '[' then s[1..] else s;
    if pre == "" {
      assert a == c + "}]";
    } else {
      assert a == "{" + c + "}]";
    }
    var b := a[..|a| - 1];
    if pre == "" {
      assert b == c + "}";
      assert b[0] != '{';
    } else {
      assert b == "{" + c + "}";
    }
  }

  /** Cutting the tail of an array text yields one wrapped object per body. */
  lemma {:induction false} InlinePiecesOfTail(cs: seq<string>)
    requires |cs| >= 1
    requires forall i :: 0 <= i < |cs| ==> PlainObjectBody(cs[i])
    ensures InlinePieces(ArrayTail(cs)) == ObjectTexts(cs)
    decreases |cs|
  {
    var s := ArrayTail(cs);
    var c := cs[0];
    if |cs| == 1 {
      assert s == c + "}]";
      NoSeparatorBefore(s, "", c, "}]");
      OccursSeparator(s, |c|);
      OccursSeparator(s, |c| + 1);
      FindNone(s, Separator);
      WrapLast("", c);
      assert InlinePieces(s) == [WrapPiece(s)];
    } else {
      var rest := ArrayTail(cs[1..]);
      assert s == c + Separator + rest;
      NoSeparatorBefore(s, "", c, Separator + rest);
      OccursSeparator(s, |c|);
      FindIs(s, Separator, |c|);
      assert s[..|c|] == c;
      assert s[|c| + |Separator|..] == rest;
      assert InlinePieces(s) == [WrapPiece(c)] + InlinePieces(rest);
      WrapMiddle(c);
      InlinePiecesOfTail(cs[1..]);
    }
  }

  /**
   * Splitting the inline array text of configurations gives back exactly
   * those configurations, one JSON object per piece.
   */
  lemma InlinePiecesOfArray(cs: seq<string>)
    requires |cs| >= 1
    requires forall i :: 0 <= i < |cs| ==> PlainObjectBody(cs[i])
    ensures InlinePieces(ArrayText(cs)) == ObjectTexts(cs)
  {
    if |cs| == 1 {
      InlinePiecesOfSingleton(cs);
    } else {
      InlinePiecesOfLonger(cs);
    }
  }

  lemma InlinePiecesOfLonger(cs: seq<string>)
    requires |cs| >= 2
    requires forall i :: 0 <= i < |cs| ==> PlainObjectBody(cs[i])
    ensures InlinePieces(ArrayText(cs)) == ObjectTexts(cs)
  {
    var c, tail := cs[0], cs[1..];
    assert PlainObjectBody(c);
    InlineFirstPiece(c, ArrayTail(tail));
    InlinePiecesOfTail(tail);
    assert ArrayText(cs) == "[{" + (c + Separator + ArrayTail(tail));
  }

  lemma InlinePiecesOfSingleton(cs: seq<string>)
    requires |cs| == 1 && PlainObjectBody(cs[0])
    ensures InlinePieces(ArrayText(cs)) == ObjectTexts(cs)
  {
    var c := cs[0];
    var s := ArrayText(cs);
    assert ObjectTexts(cs) == [ObjectText(c)];
    assert s == "[{" + c + "}]";
    NoSeparatorBefore(s, "[{", c, "}]");
    OccursSeparator(s, |c| + 2);
    OccursSeparator(s, |c| + 3);
    FindNone(s, Separator);
    WrapLast("[{", c);
    assert InlinePieces(s) == [WrapPiece(s)];
  }

  lemma InlineFirstPiece(c: string, rest: string)
    requires PlainObjectBody(c)
    ensures InlinePieces("[{" + (c + Separator + rest)) == [ObjectText(c)] + InlinePieces(rest)
  {
    var s := "[{" + (c + Separator + rest);
    assert s == "[{" + c + (Separator + rest);
    NoSeparatorBefore(s, "[{", c, Separator + rest);
    OccursSeparator(s, |c| + 2);
    FindIs(s, Separator, |c| + 2);
    assert s[..|c| + 2] == "[{" + c;
    assert s[|c| + 2 + |Separator|..] == rest;
    assert InlinePieces(s) == [WrapPiece("[{" + c)] + InlinePieces(rest);
    WrapFirst(c);
  }

  // ----- a parameter file that lists other parameter files -----

  /** How a parameter file read with several configurations allowed is taken. */
  datatype ConfigFileForm =
    | InlineArray(text: string)          // its single line is an inline `[...]` array
    | FileList(names: seq<string>)       // it names more than one existing parameter file
    | MissingFiles(badnames: seq<string>) // it names several files but some do not exist: an error
    | SingleConfig                       // the file is itself one JSON configuration

  /** A stripped line that names a file: non-empty and not a comment. */
  predicate NamesFile(s: string)
  {
    s != [] && s[0] != '#'
  }

  /** The stripped, non-comment lines whose file exists (`present`) or does not. */
  function ListedPaths(lines: seq<string>, fileExists: string -> bool, present: bool): (r: seq<string>)
    ensures forall i :: 0 <= i < |r| ==> NamesFile(r[i]) && fileExists(r[i]) == present
  {
    if lines == [] then []
    else
      var s := Strip(lines[|lines| - 1]);
      ListedPaths(lines[..|lines| - 1], fileExists, present) +
        (if NamesFile(s) && fileExists(s) == present then [s] else [])
  }

  /**
   * The scan of a parameter file for other parameter file names: a single
   * line starting with `[` is an inline array; otherwise the non-comment
   * lines are sorted into names that exist and names that do not.
   * `namedExisting` reports whether any listed file exists, the condition
   * under which the core records the list's own name.
   */
  method ClassifyConfigLines(lines: seq<string>, fileExists: string -> bool)
    returns (form: ConfigFileForm, namedExisting: bool)
    ensures |lines| == 1 && Strip(lines[0]) != [] && Strip(lines[0])[0] == '[' ==>
      form == InlineArray(Strip(lines[0])) && !namedExisting
    ensures !(|lines| == 1 && Strip(lines[0]) != [] && Strip(lines[0])[0] == '[') ==>
      var names := ListedPaths(lines, fileExists, true);
      var badnames := ListedPaths(lines, fileExists, false);
      namedExisting == (|names| > 0) &&
      form == (if |names| > 1 then (if |badnames| > 0 then MissingFiles(badnames) else FileList(names))
               else SingleConfig)
  {
    var names: seq<string> := [];
    var badnames: seq<string> := [];
    namedExisting := false;
    for i := 0 to |lines|
      invariant names == ListedPaths(lines[..i], fileExists, true)
      invariant badnames == ListedPaths(lines[..i], fileExists, false)
      invariant namedExisting == (|names| > 0)
      invariant |lines| == 1 && Strip(lines[0]) != [] && Strip(lines[0])[0] == '[' ==> i == 0
    {
      var s := Strip(lines[i]);
      if s != [] && s[0] == '[' && |lines| == 1 {
        return InlineArray(s), false;
      }
      assert lines[..i + 1][..i] == lines[..i];
      if NamesFile(s) {
        if fileExists(s) {
          names := names + [s];
          namedExisting := true;
        } else {
          badnames := badnames + [s];
        }
      }
    }
    assert lines[..|lines|] == lines;
    if |names| > 1 {
      if |badnames| > 0 {
        form := MissingFiles(badnames);
      } else {
        form := FileList(names);
      }
    } else {
      form := SingleConfig;
    }
  }

  // ----- boolean values -----

  /**
   * The case-insensitive reading of booleans in `load_json_string`: a string
   * spelling `true` or `false` in any case becomes `True` or `False`; any
   * other value, strings and non-strings alike, is kept.
   */
  function NormaliseFlag(val: Value): Value
  {
    match val
    case Str(s) =>
      if Lower(s) == "true" then Str("True")
      else if Lower(s) == "false" then Str("False")
      else val
    case _ => val
  }

  lemma NormaliseFlagSpec(val: Value)
    ensures NormaliseFlag(val) == Str("True") <==> val.Str? && Lower(val.s) == "true"
    ensures NormaliseFlag(val) == Str("False") <==> val.Str? && Lower(val.s) == "false"
    ensures !(val.Str? && (Lower(val.s) == "true" || Lower(val.s) == "false")) ==> NormaliseFlag(val) == val
    ensures NormaliseFlag(NormaliseFlag(val)) == NormaliseFlag(val)
  {
    assert Lower("True") == "true";
    assert Lower("False") == "false";
  }
}
