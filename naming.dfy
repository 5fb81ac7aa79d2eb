/** How the mapping engine names a record type: the repository name
    (`manufacturing_plants` for `ManufacturingPlant`) and the display name
    written above its block in a template (`Manufacturing Plants`). */
module Naming {
  import opened Text
  import opened Seqs

  predicate IsUpperAscii(c: char) { 'A' <= c <= 'Z' }
  predicate IsLowerAscii(c: char) { 'a' <= c <= 'z' }

  /** Length of the run of lower-case ASCII letters at the front of `s`
      (what `[a-z]+` consumes greedily). */
  function LowerRun(s: string): (n: nat)
    ensures n <= |s|
    ensures forall i :: 0 <= i < n ==> IsLowerAscii(s[i])
    ensures n < |s| ==> !IsLowerAscii(s[n])
  {
    if s != [] && IsLowerAscii(s[0]) then 1 + LowerRun(s[1..]) else 0
  }

  /** First pass of `_camel_to_snake`: `re.sub("(.)([A-Z][a-z]+)", r"\1_\2", s)`,
      matches taken left to right without overlap; `.` is any character but
      a newline. */
  function SplitBeforeWords(s: string): string
    decreases |s|
  {
    if |s| >= 3 && s[0] != '\n' && IsUpperAscii(s[1]) && LowerRun(s[2..]) > 0 then
      var j := 2 + LowerRun(s[2..]);
      [s[0], '_'] + s[1..j] + SplitBeforeWords(s[j..])
    else if s == [] then []
    else [s[0]] + SplitBeforeWords(s[1..])
  }

  /** Second pass of `_camel_to_snake`: `re.sub("([a-z0-9])([A-Z])", r"\1_\2", s)`. */
  function SplitCaseChanges(s: string): string
    decreases |s|
  {
    if |s| >= 2 && (IsLowerAscii(s[0]) || IsDigit(s[0])) && IsUpperAscii(s[1]) then
      [s[0], '_', s[1]] + SplitCaseChanges(s[2..])
    else if s == [] then []
    else [s[0]] + SplitCaseChanges(s[1..])
  }

  /** `_camel_to_snake`: both passes, then lower-case. */
  function CamelToSnake(name: string): (r: string)
    ensures HasNoUpper(r)
  {
    Lower(SplitCaseChanges(SplitBeforeWords(name)))
  }

  function DropUnderscores(s: string): string {
    if s == [] then [] else (if s[0] == '_' then [] else [s[0]]) + DropUnderscores(s[1..])
  }

  lemma {:induction false} DropUnderscoresAppend(a: string, b: string)
    ensures DropUnderscores(a + b) == DropUnderscores(a) + DropUnderscores(b)
  {
    if a == [] {
      assert a + b == b;
    } else {
      assert (a + b)[1..] == a[1..] + b;
      DropUnderscoresAppend(a[1..], b);
    }
  }

  lemma {:induction false} SplitBeforeWordsOnlyInserts(s: string)
    ensures DropUnderscores(SplitBeforeWords(s)) == DropUnderscores(s)
    decreases |s|
  {
    if |s| >= 3 && s[0] != '\n' && IsUpperAscii(s[1]) && LowerRun(s[2..]) > 0 {
      var j := 2 + LowerRun(s[2..]);
      DropUnderscoresAppend([s[0], '_'] + s[1..j], SplitBeforeWords(s[j..]));
      DropUnderscoresAppend([s[0], '_'], s[1..j]);
      DropUnderscoresAppend([s[0]], ['_']);
      SplitBeforeWordsOnlyInserts(s[j..]);
      assert s == [s[0]] + s[1..j] + s[j..];
      DropUnderscoresAppend([s[0]] + s[1..j], s[j..]);
      DropUnderscoresAppend([s[0]], s[1..j]);
    } else if s != [] {
      DropUnderscoresAppend([s[0]], SplitBeforeWords(s[1..]));
      SplitBeforeWordsOnlyInserts(s[1..]);
    }
  }

  lemma {:induction false} SplitCaseChangesOnlyInserts(s: string)
    ensures DropUnderscores(SplitCaseChanges(s)) == DropUnderscores(s)
    decreases |s|
  {
    if |s| >= 2 && (IsLowerAscii(s[0]) || IsDigit(s[0])) && IsUpperAscii(s[1]) {
      DropUnderscoresAppend([s[0], '_', s[1]], SplitCaseChanges(s[2..]));
      SplitCaseChangesOnlyInserts(s[2..]);
      assert s == [s[0], s[1]] + s[2..];
      DropUnderscoresAppend([s[0], s[1]], s[2..]);
    } else if s != [] {
      DropUnderscoresAppend([s[0]], SplitCaseChanges(s[1..]));
      SplitCaseChangesOnlyInserts(s[1..]);
    }
  }

  lemma {:induction false} DropUnderscoresLower(s: string)
    ensures DropUnderscores(Lower(s)) == Lower(DropUnderscores(s))
  {
    if s != [] {
      assert Lower(s) == [LowerChar(s[0])] + Lower(s[1..]);
      DropUnderscoresLower(s[1..]);
      if s[0] != '_' {
        assert Lower([s[0]] + DropUnderscores(s[1..])) == [LowerChar(s[0])] + Lower(DropUnderscores(s[1..]));
      }
    }
  }

  /** `_camel_to_snake` only inserts underscores and lower-cases: with the
      underscores taken out, its result is the lower-cased name with the
      underscores taken out. */
  lemma CamelToSnakeOnlyInsertsUnderscores(name: string)
    ensures DropUnderscores(CamelToSnake(name)) == Lower(DropUnderscores(name))
  {
    var s1 := SplitBeforeWords(name);
    SplitBeforeWordsOnlyInserts(name);
    SplitCaseChangesOnlyInserts(s1);
    DropUnderscoresLower(SplitCaseChanges(s1));
  }

  lemma {:induction false} SplitBeforeWordsNoUpper(s: string)
    requires HasNoUpper(s)
    ensures SplitBeforeWords(s) == s
    decreases |s|
  {
    if s != [] {
      assert HasNoUpper(s[1..]);
      SplitBeforeWordsNoUpper(s[1..]);
    }
  }

  lemma {:induction false} SplitCaseChangesNoUpper(s: string)
    requires HasNoUpper(s)
    ensures SplitCaseChanges(s) == s
    decreases |s|
  {
    if s != [] {
      assert HasNoUpper(s[1..]);
      SplitCaseChangesNoUpper(s[1..]);
    }
  }

  /** A name that is already snake case (no upper-case letter) is left as it is. */
  lemma CamelToSnakeOfSnake(name: string)
    requires HasNoUpper(name)
    ensures CamelToSnake(name) == name
  {
    SplitBeforeWordsNoUpper(name);
    SplitCaseChangesNoUpper(name);
    LowerOfNoUpper(name);
  }

  /** `_pluralize`: append "s" unless the word already ends in "s". */
  function Pluralize(s: string): (r: string)
    ensures |r| > 0 && r[|r| - 1] == 's'
    ensures (|s| > 0 && s[|s| - 1] == 's') ==> r == s
    ensures !(|s| > 0 && s[|s| - 1] == 's') ==> r == s + "s"
  {
    if |s| > 0 && s[|s| - 1] == 's' then s else s + "s"
  }

  /** Pluralising twice is pluralising once. */
  lemma PluralizeIdempotent(s: string)
    ensures Pluralize(Pluralize(s)) == Pluralize(s)
  {
  }

  /** `_repo_name_for_model`: the plural snake-case name of a record type. */
  function RepoName(modelName: string): string {
    Pluralize(CamelToSnake(modelName))
  }

  /** A repository name is lower-case and ends in "s"; with its
      underscores dropped it is the type name lower-cased, with an "s"
      added unless there was one. */
  lemma RepoNameShape(modelName: string)
    ensures var r := RepoName(modelName);
      |r| > 0 && r[|r| - 1] == 's' && HasNoUpper(r)
      && (DropUnderscores(r) == Lower(DropUnderscores(modelName))
        || DropUnderscores(r) == Lower(DropUnderscores(modelName)) + "s")
  {
    var snake := CamelToSnake(modelName);
    CamelToSnakeOnlyInsertsUnderscores(modelName);
    if !(|snake| > 0 && snake[|snake| - 1] == 's') {
      DropUnderscoresAppend(snake, "s");
    }
  }

  predicate IsLetterAscii(c: char) { IsUpperAscii(c) || IsLowerAscii(c) }

  /** Position `i` of `s` starts a word: the character before it (or, at
      the front, the one before `s`) is not a letter. */
  predicate StartsWord(s: string, i: nat, afterLetter: bool)
    requires i < |s|
  {
    if i == 0 then !afterLetter else !IsLetterAscii(s[i - 1])
  }

  /** `str.title()` on ASCII text: a letter after a letter is lower-cased,
      any other letter upper-cased; other characters are kept. */
  function TitleFrom(s: string, afterLetter: bool): (r: string)
    ensures |r| == |s|
    ensures forall i :: 0 <= i < |s| ==> LowerChar(r[i]) == LowerChar(s[i])
    ensures forall i :: 0 <= i < |s| && !IsUpperAscii(s[i]) && !IsLowerAscii(s[i]) ==> r[i] == s[i]
  {
    if s == [] then []
    else
      var c := s[0];
      var letter := IsUpperAscii(c) || IsLowerAscii(c);
      [if !letter then c else if afterLetter then LowerChar(c) else UpperChar(c)]
        + TitleFrom(s[1..], letter)
  }

  /** Which letters `str.title()` capitalises: the first letter of each
      word is upper-cased, every other character lower-cased. */
  lemma {:induction false} TitleFromCapitals(s: string, afterLetter: bool, i: nat)
    requires i < |s|
    ensures TitleFrom(s, afterLetter)[i] ==
      if StartsWord(s, i, afterLetter) then UpperChar(s[i]) else LowerChar(s[i])
  {
    if i > 0 {
      TitleFromCapitals(s[1..], IsLetterAscii(s[0]), i - 1);
      assert s[1..][i - 1] == s[i];
      if i > 1 {
        assert s[1..][i - 2] == s[i - 1];
      }
    }
  }

  function Title(s: string): string {
    TitleFrom(s, false)
  }

  function Replace(s: string, from: char, to: char): (r: string)
    ensures |r| == |s|
    ensures forall i :: 0 <= i < |s| ==> r[i] == if s[i] == from then to else s[i]
  {
    seq(|s|, i requires 0 <= i < |s| => if s[i] == from then to else s[i])
  }

  /** `_display_name_for_model`: the repository name with "_" read as a
      space, title-cased. */
  function DisplayName(modelName: string): (r: string)
    ensures |r| == |RepoName(modelName)|
    ensures forall i :: 0 <= i < |r| ==> r[i] != '_'
  {
    Title(Replace(RepoName(modelName), '_', ' '))
  }

  /** The display name determines the repository name: lower-case it and
      read spaces as "_" (for a type name without spaces, as every class
      name is). */
  lemma DisplayNameRoundTrip(modelName: string)
    requires forall i :: 0 <= i < |modelName| ==> modelName[i] != ' '
    ensures Replace(Lower(DisplayName(modelName)), ' ', '_') == RepoName(modelName)
  {
    assert NoSpace(modelName);
    RepoNameNoSpace(modelName);
    TitleOfSnakeUndone(RepoName(modelName));
  }

  lemma RepoNameNoSpace(modelName: string)
    requires NoSpace(modelName)
    ensures NoSpace(RepoName(modelName)) && HasNoUpper(RepoName(modelName))
  {
    var s1 := SplitBeforeWords(modelName);
    NoSpaceSplitBeforeWords(modelName);
    NoSpaceSplitCaseChanges(s1);
    var snake := CamelToSnake(modelName);
    assert NoSpace(snake);
  }

  /** Lower-casing and reading spaces as "_" undoes the display form of a
      lower-case name without spaces. */
  lemma TitleOfSnakeUndone(repo: string)
    requires NoSpace(repo) && HasNoUpper(repo)
    ensures Replace(Lower(Title(Replace(repo, '_', ' '))), ' ', '_') == repo
  {
    var spaced := Replace(repo, '_', ' ');
    var d := Title(spaced);
    var back := Replace(Lower(d), ' ', '_');
    forall i | 0 <= i < |repo| ensures back[i] == repo[i] {
      assert LowerChar(d[i]) == LowerChar(spaced[i]);
    }
  }

  predicate NoSpace(s: string) {
    forall i :: 0 <= i < |s| ==> s[i] != ' '
  }

  lemma {:induction false} NoSpaceSplitBeforeWords(s: string)
    requires NoSpace(s)
    ensures NoSpace(SplitBeforeWords(s))
    decreases |s|
  {
    if |s| >= 3 && s[0] != '\n' && IsUpperAscii(s[1]) && LowerRun(s[2..]) > 0 {
      var j := 2 + LowerRun(s[2..]);
      assert NoSpace(s[j..]);
      NoSpaceSplitBeforeWords(s[j..]);
    } else if s != [] {
      assert NoSpace(s[1..]);
      NoSpaceSplitBeforeWords(s[1..]);
    }
  }

  lemma {:induction false} NoSpaceSplitCaseChanges(s: string)
    requires NoSpace(s)
    ensures NoSpace(SplitCaseChanges(s))
    decreases |s|
  {
    if |s| >= 2 && (IsLowerAscii(s[0]) || IsDigit(s[0])) && IsUpperAscii(s[1]) {
      assert NoSpace(s[2..]);
      NoSpaceSplitCaseChanges(s[2..]);
    } else if s != [] {
      assert NoSpace(s[1..]);
      NoSpaceSplitCaseChanges(s[1..]);
    }
  }

  lemma {:induction false} TitleOfLowerWord(s: string)
    requires forall i :: 0 <= i < |s| ==> IsLowerAscii(s[i])
    ensures TitleFrom(s, true) == s
  {
    if s != [] {
      TitleOfLowerWord(s[1..]);
    }
  }

  predicate AllLower(s: string) {
    forall i :: 0 <= i < |s| ==> IsLowerAscii(s[i])
  }

  /** The first pass moves on one character where no capitalised word follows. */
  lemma SplitBeforeWordsPass(s: string)
    requires |s| >= 2 && !IsUpperAscii(s[1])
    ensures SplitBeforeWords(s) == [s[0]] + SplitBeforeWords(s[1..])
  {
  }

  /** The first pass puts "_" before a capitalised word ending the text. */
  lemma SplitBeforeWordsLast(s: string)
    requires |s| >= 3 && s[0] != '\n' && IsUpperAscii(s[1]) && AllLower(s[2..])
    ensures SplitBeforeWords(s) == [s[0], '_'] + s[1..]
  {
    var j := 2 + LowerRun(s[2..]);
    assert j == |s|;
    assert s[1..j] == s[1..] && s[j..] == [];
  }

  /** The first pass moves past a character when no capitalised word follows it. */
  lemma SplitBeforeCons(c: char, rest: string)
    requires |rest| >= 1 && !IsUpperAscii(rest[0])
    ensures SplitBeforeWords([c] + rest) == [c] + SplitBeforeWords(rest)
  {
    var s := [c] + rest;
    assert s[1] == rest[0] && s[1..] == rest;
    SplitBeforeWordsPass(s);
  }

  /** The first pass on lower-case letters followed by one capitalised
      word puts an underscore before the word. */
  lemma {:induction false} SplitBeforeLastWord(w: string, u: char, l: string)
    requires |w| > 0 && AllLower(w) && IsUpperAscii(u) && |l| > 0 && AllLower(l)
    ensures SplitBeforeWords(w + [u] + l) == w + ['_', u] + l
    decreases |w|
  {
    if |w| == 1 {
      var s := w + [u] + l;
      assert s[1..] == [u] + l && s[2..] == l;
      SplitBeforeWordsLast(s);
      assert w + ['_', u] + l == [s[0], '_'] + ([u] + l);
    } else {
      HeadRegroup(w, [u], l);
      SplitBeforeCons(w[0], w[1..] + [u] + l);
      SplitBeforeLastWord(w[1..], u, l);
      HeadRegroup(w, ['_', u], l);
    }
  }

  /** The first pass on two capitalised words splits them with an underscore. */
  lemma SplitBeforeTwoWords(u1: char, w: string, u2: char, l: string)
    requires IsUpperAscii(u1) && |w| > 0 && AllLower(w) && IsUpperAscii(u2) && |l| > 0 && AllLower(l)
    ensures SplitBeforeWords([u1] + w + [u2] + l) == [u1] + w + ['_', u2] + l
  {
    ConsRegroup(u1, w, [u2], l);
    SplitBeforeCons(u1, w + [u2] + l);
    SplitBeforeLastWord(w, u2, l);
    ConsRegroup(u1, w, ['_', u2], l);
  }

  /** The second pass passes over a character that is not a lower-case
      letter or digit. */
  lemma SplitCaseChangesKeeps(c: char, rest: string)
    requires !IsLowerAscii(c) && !IsDigit(c)
    ensures SplitCaseChanges([c] + rest) == [c] + SplitCaseChanges(rest)
  {
    assert ([c] + rest)[1..] == rest;
  }

  /** The second pass passes over lower-case letters not followed by a
      capital. */
  lemma {:induction false} SplitCaseChangesLowerRun(w: string, rest: string)
    requires AllLower(w) && |rest| > 0 && !IsUpperAscii(rest[0])
    ensures SplitCaseChanges(w + rest) == w + SplitCaseChanges(rest)
    decreases |w|
  {
    if w == [] {
      assert w + rest == rest;
    } else {
      assert (w + rest)[1..] == w[1..] + rest;
      SplitCaseChangesLowerRun(w[1..], rest);
    }
  }

  /** `_camel_to_snake` of two capitalised words: lower-cased, joined by "_". */
  lemma CamelToSnakeTwoWords(u1: char, w: string, u2: char, l: string)
    requires IsUpperAscii(u1) && |w| > 0 && AllLower(w) && IsUpperAscii(u2) && |l| > 0 && AllLower(l)
    ensures CamelToSnake([u1] + w + [u2] + l) == [LowerChar(u1)] + w + ['_', LowerChar(u2)] + l
  {
    SplitBeforeTwoWords(u1, w, u2, l);
    var s := [u1] + w + ['_', u2] + l;
    assert SplitCaseChanges(s) == s by {
      assert s == [u1] + (w + (['_'] + ([u2] + l)));
      SplitCaseChangesKeeps(u1, w + (['_'] + ([u2] + l)));
      SplitCaseChangesLowerRun(w, ['_'] + ([u2] + l));
      SplitCaseChangesKeeps('_', [u2] + l);
      SplitCaseChangesKeeps(u2, l);
      SplitCaseChangesNoUpper(l);
    }
    var r := [LowerChar(u1)] + w + ['_', LowerChar(u2)] + l;
    assert Lower(s) == r;
  }

  /** Title-casing goes piece by piece: the second piece starts after the
      first one's last character. */
  lemma {:induction false} TitleFromAppend(a: string, b: string, afterLetter: bool)
    ensures TitleFrom(a + b, afterLetter) ==
      TitleFrom(a, afterLetter) + TitleFrom(b, if a == [] then afterLetter else IsLetterAscii(a[|a| - 1]))
  {
    if a == [] {
      assert a + b == b;
    } else {
      assert (a + b)[1..] == a[1..] + b;
      TitleFromAppend(a[1..], b, IsLetterAscii(a[0]));
    }
  }

  /** `str.title()` of a lower-case word capitalises its first letter. */
  lemma TitleWord(c: char, p: string)
    requires IsLowerAscii(c) && AllLower(p)
    ensures TitleFrom([c] + p, false) == [UpperChar(c)] + p
  {
    assert ([c] + p)[1..] == p;
    TitleOfLowerWord(p);
  }

  /** After a space, a lower-case word is capitalised whatever came before. */
  lemma TitleSpaceWord(c: char, p: string, afterLetter: bool)
    requires IsLowerAscii(c) && AllLower(p)
    ensures TitleFrom([' '] + ([c] + p), afterLetter) == [' '] + ([UpperChar(c)] + p)
  {
    assert ([' '] + ([c] + p))[1..] == [c] + p;
    TitleWord(c, p);
  }

  /** `str.title()` of two lower-case words joined by a space capitalises
      each word's first letter. */
  lemma TitleTwoWords(c1: char, w: string, c2: char, p: string)
    requires IsLowerAscii(c1) && |w| > 0 && AllLower(w) && IsLowerAscii(c2) && AllLower(p)
    ensures Title([c1] + w + [' ', c2] + p) == [UpperChar(c1)] + w + [' ', UpperChar(c2)] + p
  {
    var first := [c1] + w;
    var tail := [' '] + ([c2] + p);
    assert [c1] + w + [' ', c2] + p == first + tail;
    TitleFromAppend(first, tail, false);
    assert IsLetterAscii(first[|first| - 1]);
    TitleWord(c1, w);
    TitleSpaceWord(c2, p, true);
  }

  /** A type named by two capitalised words is stored as both words
      lower-cased, joined by "_", the last one pluralised. */
  lemma RepoNameTwoWords(u1: char, w: string, u2: char, l: string)
    requires IsUpperAscii(u1) && |w| > 0 && AllLower(w) && IsUpperAscii(u2) && |l| > 0 && AllLower(l)
    ensures RepoName([u1] + w + [u2] + l) == [LowerChar(u1)] + w + ['_', LowerChar(u2)] + Pluralize(l)
  {
    CamelToSnakeTwoWords(u1, w, u2, l);
    var snake := [LowerChar(u1)] + w + ['_', LowerChar(u2)] + l;
    if l[|l| - 1] == 's' {
      assert snake[|snake| - 1] == 's';
    } else {
      assert snake + "s" == [LowerChar(u1)] + w + ['_', LowerChar(u2)] + (l + "s");
    }
  }

  lemma {:induction false} ReplaceAppend(x: string, y: string, from: char, to: char)
    ensures Replace(x + y, from, to) == Replace(x, from, to) + Replace(y, from, to)
  {
  }

  /** A type named by two capitalised words, `ManufacturingPlant`, is shown
      as both words, space-separated, the last one pluralised. */
  lemma DisplayNameTwoWords(u1: char, w: string, u2: char, l: string)
    requires IsUpperAscii(u1) && |w| > 0 && AllLower(w) && IsUpperAscii(u2) && |l| > 0 && AllLower(l)
    ensures DisplayName([u1] + w + [u2] + l) == [u1] + w + [' ', u2] + Pluralize(l)
  {
    RepoNameTwoWords(u1, w, u2, l);
    var p := Pluralize(l);
    var head := [LowerChar(u1)] + w;
    var repo := head + ['_', LowerChar(u2)] + p;
    var spaced := head + [' ', LowerChar(u2)] + p;
    assert Replace(repo, '_', ' ') == spaced by {
      NoUnderscoreReplace(head);
      NoUnderscoreReplace(p);
      assert Replace(['_', LowerChar(u2)], '_', ' ') == [' ', LowerChar(u2)];
      ReplaceAppend(head, ['_', LowerChar(u2)], '_', ' ');
      ReplaceAppend(head + ['_', LowerChar(u2)], p, '_', ' ');
    }
    assert AllLower(p);
    TitleTwoWords(LowerChar(u1), w, LowerChar(u2), p);
    assert UpperChar(LowerChar(u1)) == u1 && UpperChar(LowerChar(u2)) == u2;
  }

  /** The test fixture's `ManufacturingPlant` type is stored as
      `manufacturing_plants` and shown as "Manufacturing Plants". */
  lemma ManufacturingPlantNames()
    ensures RepoName("ManufacturingPlant") == "manufacturing_plants"
    ensures DisplayName("ManufacturingPlant") == "Manufacturing Plants"
  {
    var w := "anufacturing";
    var l := "lant";
    assert AllLower(w) && AllLower(l);
    var name := ['M'] + w + ['P'] + l;
    ManufacturingPlantSpelling(w, l);
    TwoWordNames(name, w, l);
  }

  /** The pieces `ManufacturingPlantNames` puts together, spelled out. */
  lemma ManufacturingPlantSpelling(w: string, l: string)
    requires w == "anufacturing" && l == "lant"
    ensures ['M'] + w + ['P'] + l == "ManufacturingPlant"
    ensures ['m'] + w + ['_', 'p'] + (l + "s") == "manufacturing_plants"
    ensures ['M'] + w + [' ', 'P'] + (l + "s") == "Manufacturing Plants"
  {
  }

  /** A type named `M<w>P<l>`, for lower-case `w` and `l` with `l` not
      ending in "s", is stored as `m<w>_p<l>s` and shown as "M<w> P<l>s". */
  lemma TwoWordNames(name: string, w: string, l: string)
    requires |w| > 0 && AllLower(w) && |l| > 0 && AllLower(l) && l[|l| - 1] != 's'
    requires name == ['M'] + w + ['P'] + l
    ensures RepoName(name) == ['m'] + w + ['_', 'p'] + (l + "s")
    ensures DisplayName(name) == ['M'] + w + [' ', 'P'] + (l + "s")
  {
    RepoNameTwoWords('M', w, 'P', l);
    DisplayNameTwoWords('M', w, 'P', l);
  }

  /** The test fixture's `Car` type is stored as `cars`. */
  lemma CarRepoName()
    ensures RepoName("Car") == "cars"
  {
    var s := "Car";
    assert LowerRun(s[2..]) == 1 by {
      assert s[2..] == "r";
      assert "r"[1..] == "";
    }
    assert SplitBeforeWords(s) == s by {
      assert s[1..] == "ar";
      SplitBeforeWordsNoUpper("ar");
    }
    assert SplitCaseChanges(s) == s by {
      assert s[1..] == "ar";
      SplitCaseChangesNoUpper("ar");
    }
    assert CamelToSnake(s) == "car";
  }

  /** The test fixture's `Car` type is shown as "Cars". */
  lemma CarDisplayName()
    ensures DisplayName("Car") == "Cars"
  {
    CarRepoName();
    NoUnderscoreReplace("cars");
    TitleOfCars();
  }

  lemma NoUnderscoreReplace(s: string)
    requires forall i :: 0 <= i < |s| ==> s[i] != '_'
    ensures Replace(s, '_', ' ') == s
  {
  }

  lemma TitleOfCars()
    ensures Title("cars") == "Cars"
  {
    var s := "cars";
    assert s[1..] == "ars";
    TitleOfLowerWord("ars");
    assert TitleFrom(s, false) == ['C'] + TitleFrom("ars", true);
  }
}
