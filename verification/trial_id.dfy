/** `extract_clean_trial_id`: the trial identifier of a raw recording's file
    name, its first two underscore-separated fields. */
module TrialId {
  import opened Strings

  /** `s.rfind(c)`: the last index holding `c`, or -1 when there is none. */
  function LastIndexOf(s: string, c: char): (k: int)
    ensures -1 <= k < |s|
    ensures k >= 0 ==> s[k] == c
    ensures forall i :: k < i < |s| ==> s[i] != c
    decreases |s|
  {
    if |s| == 0 then -1
    else if s[|s| - 1] == c then |s| - 1
    else LastIndexOf(s[..|s| - 1], c)
  }

  /** The last `c` is the one followed by no other. */
  lemma LastIndexOfBefore(before: string, c: char, after: string)
    requires c !in after
    ensures LastIndexOf(before + [c] + after, c) == |before|
  {
    var s := before + [c] + after;
    var k := LastIndexOf(s, c);
    assert s[|before|] == c;
  }

  /** Some character of `p[from..to]` is not a dot. */
  predicate HasNonDot(p: string, from: int, to: int)
    requires 0 <= from && to <= |p|
  {
    exists i :: from <= i < to && p[i] != '.'
  }

  /** POSIX `os.path.splitext(p)`: the extension is the last dot of the final
      path component and what follows it, unless that component has only dots
      before it (a leading-dot name such as `.bashrc` has no extension). */
  function SplitExt(p: string): (r: (string, string))
    ensures r.0 + r.1 == p
    ensures r.1 != "" ==> r.1[0] == '.' && forall i :: 1 <= i < |r.1| ==> r.1[i] != '.' && r.1[i] != '/'
    ensures r.1 == "" <==>
              forall i :: LastIndexOf(p, '/') < i < LastIndexOf(p, '.') ==> p[i] == '.'
  {
    var sepIndex := LastIndexOf(p, '/');
    var dotIndex := LastIndexOf(p, '.');
    if dotIndex > sepIndex && HasNonDot(p, sepIndex + 1, dotIndex) then
      assert p[..dotIndex] + p[dotIndex..] == p;
      (p[..dotIndex], p[dotIndex..])
    else
      (p, "")
  }

  /** The name with its extension removed. */
  function StripExtension(filename: string): string {
    SplitExt(filename).0
  }

  /** extract_clean_trial_id. The identifier is the longest prefix of the name
      without its extension that holds at most one underscore: that name cut
      just before its second underscore, or all of it when it has fewer than two. */
  function ExtractCleanTrialId(filename: string): (id: string)
    ensures StartsWith(StripExtension(filename), id)
    ensures CountChar(id, '_') == if '_' in StripExtension(filename) then 1 else 0
    ensures id == StripExtension(filename) || StripExtension(filename)[|id|] == '_'
  {
    var base := StripExtension(filename);
    var parts := Split(base, '_');
    if |parts| >= 2 then
      CutAtSecondSeparator(base, '_');
      parts[0] + "_" + parts[1]
    else
      CountCharZero(base, '_');
      base
  }

  /** With at least one separator, the first two pieces and the separator between
      them start the string, hold exactly one separator, and are followed by the
      end of the string or by a separator. */
  lemma CutAtSecondSeparator(s: string, sep: char)
    requires |Split(s, sep)| >= 2
    ensures var parts := Split(s, sep);
            var id := parts[0] + [sep] + parts[1];
            && StartsWith(s, id)
            && CountChar(id, sep) == 1
            && sep in s
            && (id == s || s[|id|] == sep)
  {
    var parts := Split(s, sep);
    var id := parts[0] + [sep] + parts[1];
    JoinSplit(s, sep);
    JoinFirstTwo(parts, sep);
    CountCharZero(parts[0], sep);
    CountCharZero(parts[1], sep);
    CountCharConcat(parts[0], [sep], sep);
    CountCharConcat(parts[0] + [sep], parts[1], sep);
    assert CountChar([sep], sep) == 1;
    CountCharZero(s, sep);
    if |parts| > 2 {
      var longer := id + [sep];
      assert s[..|longer|] == longer;
      assert s[|id|] == longer[|id|];
    }
  }

  /** A name following the recording convention `<subject>_<trial>_<rest>.<ext>`
      yields `<subject>_<trial>`, whatever the rest says. */
  lemma ConventionalName(subject: string, trial: string, rest: string, ext: string)
    requires |subject| >= 1
    requires '_' !in subject && '_' !in trial
    requires '/' !in subject + trial + rest && '.' !in subject + trial + rest + ext && '/' !in ext
    ensures ExtractCleanTrialId(subject + "_" + trial + "_" + rest + "." + ext) == subject + "_" + trial
  {
    var base := subject + "_" + trial + "_" + rest;
    var name := base + "." + ext;
    assert '.' !in base && '/' !in base by {
      assert forall c :: c in base ==> c in subject + trial + rest || c == '_';
    }
    LastIndexOfBefore(base, '.', ext);
    assert name == base + ['.'] + ext;
    assert '/' !in name;
    assert name[0] == subject[0] != '.';
    assert StripExtension(name) == base;
    assert base == subject + ['_'] + (trial + ['_'] + rest);
    SplitAfterPiece(subject, trial + ['_'] + rest, '_');
    SplitAfterPiece(trial, rest, '_');
  }

  /** The example of the source's documentation. */
  lemma ExampleWithTimestamp(name: string)
    requires name == "S04_T01_29_11_25_19_27_24.csv"
    ensures ExtractCleanTrialId(name) == "S04_T01"
  {
    var subject, trial, rest, ext := "S04", "T01", "29_11_25_19_27_24", "csv";
    assert subject + "_" + trial == "S04_T01";
    assert subject + "_" + trial + "_" + rest == "S04_T01_29_11_25_19_27_24";
    assert name == subject + "_" + trial + "_" + rest + "." + ext;
    ConventionalName(subject, trial, rest, ext);
  }

  /** A name without an extension or an underscore is the identifier. */
  lemma ExampleFallback()
    ensures ExtractCleanTrialId("weird") == "weird"
  {
    assert LastIndexOf("weird", '.') == -1;
  }
}
