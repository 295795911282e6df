/**
 * `ImageGenerationService`: the naming rules for generated images, the
 * request sent to DALL-E for each quality, and the checks around saving.
 * The OpenAI call, the image download, the cloud upload and the disk are
 * outside the model; their outcomes are parameters.
 */
module ImageGeneration {
  import opened Wrappers
  import opened Text

  // ---------------------------------------------------------------------------
  // `generateFileNameFromPrompt`

  /** The length of the run of non-space characters at the start of `s`. */
  function RunLength(s: string): (n: nat)
    ensures n <= |s|
    ensures forall k | 0 <= k < n :: !IsRegexSpace(s[k])
    ensures n < |s| ==> IsRegexSpace(s[n])
  {
    if |s| == 0 || IsRegexSpace(s[0]) then 0 else 1 + RunLength(s[1..])
  }

  /** The maximal runs of characters outside `\s`, in order. */
  function Tokens(s: string): (r: seq<string>)
    ensures forall k | 0 <= k < |r| :: |r[k]| > 0
    decreases |s|
  {
    if |s| == 0 then []
    else if IsRegexSpace(s[0]) then Tokens(s[1..])
    else
      var n := RunLength(s);
      [s[..n]] + Tokens(s[n..])
  }

  /**
   * `s.split("\\s+")` for a non-blank `s`: the runs between whitespace, with
   * the empty leading piece Java produces when `s` starts with whitespace
   * (a trailing one is dropped).
   */
  function SplitOnSpaces(s: string): seq<string> {
    (if |s| > 0 && IsRegexSpace(s[0]) then [""] else []) + Tokens(s)
  }

  /** The words that survive cleaning: `replaceAll("[^a-zA-Z0-9]", "")`, empty results skipped. */
  function CleanWords(words: seq<string>): (r: seq<string>)
    ensures forall k | 0 <= k < |r| :: |r[k]| > 0 && forall c | c in r[k] :: IsAsciiAlphanumeric(c)
  {
    if |words| == 0 then []
    else
      var clean := KeepAlphanumeric(words[|words| - 1]);
      CleanWords(words[..|words| - 1]) + (if clean != "" then [clean] else [])
  }

  lemma {:induction false} JoinSnoc(xs: seq<string>, w: string, sep: string)
    ensures JoinWith(xs + [w], sep) == if |xs| == 0 then w else JoinWith(xs, sep) + sep + w
  {
    if |xs| == 1 {
      assert xs + [w] == [xs[0]] + [w];
      JoinWithCons(xs[0], [w], sep);
    } else if |xs| > 1 {
      assert (xs + [w])[1..] == xs[1..] + [w];
      JoinSnoc(xs[1..], w, sep);
      JoinWithCons(xs[0], xs[1..] + [w], sep);
      JoinWithCons(xs[0], xs[1..], sep);
    } else {
      assert xs + [w] == [w];
    }
  }

  /** The joined name a list of words gives. */
  function Joined(words: seq<string>): string { JoinWith(words, "_") }

  /**
   * How many of the clean words, counting from `i`, are taken: the loop
   * stops at the first word whose addition would exceed `maxLength`.
   */
  function TakenFrom(cw: seq<string>, i: nat, maxLength: int): (n: nat)
    requires i <= |cw|
    ensures i <= n <= |cw|
    ensures forall j | i < j <= n :: |Joined(cw[..j])| <= maxLength
    ensures n < |cw| ==> |Joined(cw[..n + 1])| > maxLength
    decreases |cw| - i
  {
    if i == |cw| || |Joined(cw[..i + 1])| > maxLength then i else TakenFrom(cw, i + 1, maxLength)
  }

  /** The name `generateFileNameFromPrompt` returns. */
  function FileNameFromPrompt(prompt: Option<string>, maxLength: int): string {
    if prompt.None? || IsBlank(prompt.value) then "file"
    else
      var cw := CleanWords(SplitOnSpaces(prompt.value));
      var n := TakenFrom(cw, 0, maxLength);
      if n == 0 then "file" else Lower(Joined(cw[..n])) + ".png"
  }

  lemma CleanWordsSnoc(words: seq<string>, w: string)
    ensures CleanWords(words + [w]) == CleanWords(words) + (if KeepAlphanumeric(w) != "" then [KeepAlphanumeric(w)] else [])
  {
    assert (words + [w])[..|words|] == words;
  }

  /** The length `fileName` has after appending `w` to the joined words `xs`. */
  lemma JoinedSnocLength(xs: seq<string>, w: string)
    requires forall k | 0 <= k < |xs| :: |xs[k]| > 0
    ensures |Joined(xs + [w])| == |Joined(xs)| + |w| + (if |Joined(xs)| > 0 then 1 else 0)
    ensures |xs| > 0 ==> |Joined(xs)| > 0
  {
    JoinSnoc(xs, w, "_");
    if |xs| > 0 {
      JoinSnoc(xs[..|xs| - 1], xs[|xs| - 1], "_");
      assert xs[..|xs| - 1] + [xs[|xs| - 1]] == xs;
    }
  }

  /** One word of the loop: skip it, stop before it, or append it. */
  method AppendWord(ghost cw: seq<string>, ghost taken: nat, fileName: string, word: string, maxLength: int)
    returns (fileName': string, stop: bool, ghost taken': nat)
    requires taken <= |cw| && forall k | 0 <= k < |cw| :: |cw[k]| > 0
    requires fileName == Joined(cw[..taken])
    requires (KeepAlphanumeric(word) != "" ==> taken < |cw| && cw[taken] == KeepAlphanumeric(word))
    ensures stop ==> fileName' == fileName && taken' == taken && taken < |cw| && |Joined(cw[..taken + 1])| > maxLength
    ensures taken' <= |cw|
    ensures !stop ==> fileName' == Joined(cw[..taken'])
    ensures !stop && KeepAlphanumeric(word) == "" ==> taken' == taken
    ensures !stop && KeepAlphanumeric(word) != "" ==> taken' == taken + 1 && |Joined(cw[..taken'])| <= maxLength
    ensures stop ==> TakenFrom(cw, taken, maxLength) == taken
    ensures TakenFrom(cw, taken', maxLength) == TakenFrom(cw, taken, maxLength)
  {
    var cleanWord := KeepAlphanumeric(word);
    if cleanWord == "" {
      return fileName, false, taken;
    }
    assert cw[..taken + 1] == cw[..taken] + [cleanWord];
    JoinSnoc(cw[..taken], cleanWord, "_");
    JoinedSnocLength(cw[..taken], cleanWord);
    if |fileName| + |cleanWord| + (if |fileName| > 0 then 1 else 0) > maxLength {
      return fileName, true, taken;
    }
    fileName' := if fileName != "" then fileName + "_" + cleanWord else fileName + cleanWord;
    stop, taken' := false, taken + 1;
  }

  /** `generateFileNameFromPrompt`: the blank check, then the loop over the words. */
  method GenerateFileNameFromPrompt(prompt: Option<string>, maxLength: int) returns (name: string)
    ensures name == FileNameFromPrompt(prompt, maxLength)
  {
    if prompt.None? || IsBlank(prompt.value) {
      return "file";
    }
    var words := SplitOnSpaces(prompt.value);
    var fileName := JoinFitting(words, maxLength);
    NonEmptyJoin(CleanWords(words), TakenFrom(CleanWords(words), 0, maxLength));
    name := if fileName != "" then Lower(fileName) + ".png" else "file";
  }

  /** What the loop of `JoinFitting` keeps after `i` words, `taken` of them kept. */
  ghost predicate Fitting(words: seq<string>, maxLength: int, i: int, taken: nat, fileName: string, stopped: bool) {
    var cw := CleanWords(words);
    0 <= i <= |words| && taken <= |cw|
    && (!stopped ==> taken == |CleanWords(words[..i])| && CleanWords(words[..i]) == cw[..taken])
    && fileName == Joined(cw[..taken])
    && TakenFrom(cw, taken, maxLength) == TakenFrom(cw, 0, maxLength)
    && (stopped ==> TakenFrom(cw, taken, maxLength) == taken)
  }

  /** Stopping before a word that does not fit keeps what was built. */
  lemma FittingStop(words: seq<string>, maxLength: int, i: int, taken: nat, fileName: string)
    requires Fitting(words, maxLength, i, taken, fileName, false)
    requires TakenFrom(CleanWords(words), taken, maxLength) == taken
    ensures Fitting(words, maxLength, i, taken, fileName, true)
  {
  }

  /** A word with no letter or digit is skipped. */
  lemma FittingSkip(words: seq<string>, maxLength: int, i: int, taken: nat, fileName: string)
    requires i < |words| && Fitting(words, maxLength, i, taken, fileName, false)
    requires KeepAlphanumeric(words[i]) == ""
    ensures Fitting(words, maxLength, i + 1, taken, fileName, false)
  {
    assert words[..i + 1] == words[..i] + [words[i]];
    CleanWordsSnoc(words[..i], words[i]);
  }

  /** A clean word that fits is appended. */
  lemma FittingTake(words: seq<string>, maxLength: int, i: int, taken: nat, fileName: string, fileName': string)
    requires i < |words| && Fitting(words, maxLength, i, taken, fileName, false)
    requires KeepAlphanumeric(words[i]) != "" && taken < |CleanWords(words)|
    requires CleanWords(words)[taken] == KeepAlphanumeric(words[i])
    requires fileName' == Joined(CleanWords(words)[..taken + 1])
    requires TakenFrom(CleanWords(words), taken + 1, maxLength) == TakenFrom(CleanWords(words), taken, maxLength)
    ensures Fitting(words, maxLength, i + 1, taken + 1, fileName', false)
  {
    var cw := CleanWords(words);
    assert words[..i + 1] == words[..i] + [words[i]];
    CleanWordsSnoc(words[..i], words[i]);
    assert cw[..taken + 1] == cw[..taken] + [cw[taken]];
  }

  /** One iteration of the loop of `JoinFitting`. */
  method FitStep(words: seq<string>, maxLength: int, i: int, ghost taken: nat, fileName: string)
    returns (i': int, ghost taken': nat, fileName': string, stopped: bool)
    requires i < |words| && Fitting(words, maxLength, i, taken, fileName, false)
    ensures Fitting(words, maxLength, i', taken', fileName', stopped)
    ensures stopped ==> i' == i
    ensures !stopped ==> i' == i + 1
  {
    ghost var cw := CleanWords(words);
    CleanWordsOfPrefix(words, i);
    fileName', stopped, taken' := AppendWord(cw, taken, fileName, words[i], maxLength);
    if stopped {
      FittingStop(words, maxLength, i, taken, fileName);
      i' := i;
    } else if KeepAlphanumeric(words[i]) == "" {
      FittingSkip(words, maxLength, i, taken, fileName);
      i' := i + 1;
    } else {
      FittingTake(words, maxLength, i, taken, fileName, fileName');
      i' := i + 1;
    }
  }

  /** The `for` loop with its early `break`: the clean words that fit, joined by `_`. */
  method JoinFitting(words: seq<string>, maxLength: int) returns (fileName: string)
    ensures fileName == Joined(CleanWords(words)[..TakenFrom(CleanWords(words), 0, maxLength)])
  {
    fileName := "";
    ghost var taken: nat := 0;
    var i := 0;
    var stopped := false;
    while i < |words| && !stopped
      invariant Fitting(words, maxLength, i, taken, fileName, stopped)
      decreases |words| - i, !stopped
    {
      i, taken, fileName, stopped := FitStep(words, maxLength, i, taken, fileName);
    }
    if !stopped {
      assert words[..i] == words;
    }
  }

  /** A join of non-empty words is empty exactly when there are none. */
  lemma NonEmptyJoin(cw: seq<string>, n: nat)
    requires n <= |cw| && forall k | 0 <= k < |cw| :: |cw[k]| > 0
    ensures Joined(cw[..n]) != "" <==> n > 0
  {
    if n > 0 {
      JoinedSnocLength(cw[..n - 1], cw[n - 1]);
      assert cw[..n - 1] + [cw[n - 1]] == cw[..n];
    }
  }

  /** The clean words of a prefix of the words are a prefix of the clean words. */
  lemma {:induction false} CleanWordsOfPrefix(words: seq<string>, i: nat)
    requires i < |words|
    ensures var cw := CleanWords(words); var pre := CleanWords(words[..i]);
      |pre| <= |cw| && pre == cw[..|pre|]
      && (KeepAlphanumeric(words[i]) != "" ==> |pre| < |cw| && cw[|pre|] == KeepAlphanumeric(words[i]))
    decreases |words|
  {
    var last := |words| - 1;
    assert words == words[..last] + [words[last]];
    CleanWordsSnoc(words[..last], words[last]);
    if i < last {
      CleanWordsOfPrefix(words[..last], i);
      assert words[..last][..i] == words[..i];
      assert words[..last][i] == words[i];
    } else {
      assert words[..last] == words[..i];
    }
  }

  // ---------------------------------------------------------------------------
  // What the generated name looks like

  predicate IsSnakeChar(c: char) { IsAsciiAlphanumeric(c) || c == '_' }

  /** Alphanumeric runs joined by single `_`: no leading, trailing or doubled `_`. */
  predicate IsSnake(s: string) {
    |s| > 0 && s[0] != '_' && s[|s| - 1] != '_'
    && (forall k | 0 <= k < |s| :: IsSnakeChar(s[k]))
    && (forall k | 0 <= k < |s| - 1 :: s[k] == '_' ==> s[k + 1] != '_')
  }

  /** As `IsSnake`, with no upper-case letter. */
  predicate IsLowerSnake(s: string) {
    IsSnake(s) && forall k | 0 <= k < |s| :: !('A' <= s[k] <= 'Z')
  }

  predicate IsCleanWord(w: string) {
    |w| > 0 && forall k | 0 <= k < |w| :: IsAsciiAlphanumeric(w[k])
  }

  lemma SnakeAppend(a: string, w: string)
    requires IsSnake(a) && IsCleanWord(w)
    ensures IsSnake(a + "_" + w)
  {
    var s := a + "_" + w;
    assert forall k | 0 <= k < |a| :: s[k] == a[k];
    assert s[|a|] == '_';
    assert forall j | 0 <= j < |w| :: s[|a| + 1 + j] == w[j];
    forall k | 0 <= k < |s| - 1 && s[k] == '_'
      ensures s[k + 1] != '_'
    {
      if k < |a| - 1 {
        assert s[k] == a[k] && s[k + 1] == a[k + 1];
      } else if k == |a| {
        assert s[k + 1] == w[0];
      }
    }
  }

  /** Clean words joined by `_` form a snake name. */
  lemma {:induction false} SnakeJoin(ws: seq<string>)
    requires |ws| > 0 && forall k | 0 <= k < |ws| :: IsCleanWord(ws[k])
    ensures IsSnake(Joined(ws))
  {
    var last := |ws| - 1;
    assert ws == ws[..last] + [ws[last]];
    JoinSnoc(ws[..last], ws[last], "_");
    if last > 0 {
      SnakeJoin(ws[..last]);
      SnakeAppend(Joined(ws[..last]), ws[last]);
    }
  }

  lemma LowerSnake(s: string)
    requires IsSnake(s)
    ensures IsLowerSnake(Lower(s))
  {
    var r := Lower(s);
    forall k | 0 <= k < |s|
      ensures IsSnakeChar(r[k]) && !('A' <= r[k] <= 'Z') && (r[k] == '_' <==> s[k] == '_')
    {
      assert r[k] == LowerChar(s[k]);
    }
  }

  lemma CleanWordsAreClean(words: seq<string>)
    ensures forall k | 0 <= k < |CleanWords(words)| :: IsCleanWord(CleanWords(words)[k])
  {
    var cw := CleanWords(words);
    forall k | 0 <= k < |cw|
      ensures IsCleanWord(cw[k])
    {
      assert forall c | c in cw[k] :: IsAsciiAlphanumeric(c);
      assert forall j | 0 <= j < |cw[k]| :: cw[k][j] in cw[k];
    }
  }

  /**
   * The name is "file", or a lower-case snake name of at most `maxLength`
   * characters followed by ".png".
   */
  lemma FileNameShape(prompt: Option<string>, maxLength: int)
    ensures var r := FileNameFromPrompt(prompt, maxLength);
      r == "file"
      || (|r| > 4 && r[|r| - 4..] == ".png" && |r| - 4 <= maxLength && IsLowerSnake(r[..|r| - 4]))
  {
    var r := FileNameFromPrompt(prompt, maxLength);
    if r != "file" {
      var cw := CleanWords(SplitOnSpaces(prompt.value));
      var n := TakenFrom(cw, 0, maxLength);
      CleanWordsAreClean(SplitOnSpaces(prompt.value));
      SnakeJoin(cw[..n]);
      LowerSnake(Joined(cw[..n]));
      var stem := Lower(Joined(cw[..n]));
      assert r == stem + ".png";
      assert r[..|r| - 4] == stem;
    }
  }

  /** Adding words never shortens the joined name. */
  lemma {:induction false} JoinedMonotone(cw: seq<string>, a: nat, b: nat)
    requires a <= b <= |cw| && forall k | 0 <= k < |cw| :: |cw[k]| > 0
    ensures |Joined(cw[..a])| <= |Joined(cw[..b])|
    decreases b
  {
    if a < b {
      JoinedMonotone(cw, a, b - 1);
      assert cw[..b] == cw[..b - 1] + [cw[b - 1]];
      JoinedSnocLength(cw[..b - 1], cw[b - 1]);
    }
  }

  /**
   * The loop keeps the longest prefix of the clean words whose joined
   * length fits: a prefix fits exactly when it is no longer than the one taken.
   */
  lemma TakenIsLongestFit(cw: seq<string>, maxLength: int)
    requires forall k | 0 <= k < |cw| :: |cw[k]| > 0
    ensures var n := TakenFrom(cw, 0, maxLength);
      forall m | 0 < m <= |cw| :: |Joined(cw[..m])| <= maxLength <==> m <= n
  {
    var n := TakenFrom(cw, 0, maxLength);
    forall m | 0 < m <= |cw|
      ensures |Joined(cw[..m])| <= maxLength <==> m <= n
    {
      if m > n {
        JoinedMonotone(cw, n + 1, m);
      }
    }
  }

  /**
   * The name is "file" exactly when the prompt is null or blank, no word
   * keeps an alphanumeric character, or the first clean word alone is too long.
   */
  lemma FileNameIsFile(prompt: Option<string>, maxLength: int)
    ensures FileNameFromPrompt(prompt, maxLength) == "file" <==>
      (prompt.None? || IsBlank(prompt.value)
       || CleanWords(SplitOnSpaces(prompt.value)) == []
       || |CleanWords(SplitOnSpaces(prompt.value))[0]| > maxLength)
  {
    if prompt.Some? && !IsBlank(prompt.value) {
      var cw := CleanWords(SplitOnSpaces(prompt.value));
      if cw != [] {
        assert cw[..1] == [cw[0]];
        assert Joined(cw[..1]) == cw[0];
        var n := TakenFrom(cw, 0, maxLength);
        if n > 0 {
          assert |Lower(Joined(cw[..n])) + ".png"| >= 5 by {
            NonEmptyJoin(cw, n);
          }
        }
      }
    }
  }

  // ---------------------------------------------------------------------------
  // `getAvailablePath`

  /** A path: its parent directory, if any, and its last component. */
  datatype Path = Path(parent: Option<string>, fileName: string)

  /** The stem of a file name: everything before its last '.'. */
  function Stem(fileName: string): string {
    var dot := LastIndexOfChar(fileName, '.');
    if dot == -1 then fileName else fileName[..dot]
  }

  /** The extension of a file name, dot included, or "" when it has no '.'. */
  function Extension(fileName: string): string {
    var dot := LastIndexOfChar(fileName, '.');
    if dot == -1 then "" else fileName[dot..]
  }

  /** Stem and extension split the name at its last '.'. */
  lemma StemExtensionSplit(fileName: string)
    ensures Stem(fileName) + Extension(fileName) == fileName
    ensures '.' in fileName ==> (|Extension(fileName)| > 0 && Extension(fileName)[0] == '.'
      && '.' !in Extension(fileName)[1..])
    ensures '.' !in fileName ==> Extension(fileName) == ""
  {
    var dot := LastIndexOfChar(fileName, '.');
    if dot != -1 {
      var e := fileName[dot..];
      assert forall k | 0 <= k < |e| - 1 :: e[1..][k] == fileName[dot + 1 + k];
    }
  }

  /** The `k`-th probe: the original path first, then `name_k.ext` beside it. */
  function Probe(original: Path, k: nat): Path {
    if k == 0 then original
    else
      var f := original.fileName;
      Path(original.parent, Stem(f) + "_" + NatToString(k) + Extension(f))
  }

  lemma ProbeInjective(original: Path, j: nat, k: nat)
    requires Probe(original, j) == Probe(original, k)
    ensures j == k
  {
    var f := original.fileName;
    StemExtensionSplit(f);
    if j > 0 && k > 0 {
      var a, b := NatToString(j), NatToString(k);
      var pre, post := Stem(f) + "_", Extension(f);
      assert pre + a + post == pre + b + post;
      assert |a| == |b|;
      assert a == (pre + a + post)[|pre|..|pre| + |a|];
      assert b == (pre + b + post)[|pre|..|pre| + |b|];
      NatToStringInjective(j, k);
    }
  }

  /** The probes before the `n`-th. */
  ghost function ProbedBefore(original: Path, n: nat): set<Path> {
    set k | 0 <= k < n :: Probe(original, k)
  }

  /**
   * `getAvailablePath`, with `Files.exists` answered by membership in the
   * finite set `existing`: the first probe that does not exist.
   */
  method GetAvailablePath(original: Path, existing: set<Path>) returns (path: Path)
    ensures path !in existing
    ensures original !in existing ==> path == original
    ensures exists k: nat :: path == Probe(original, k) && forall j | 0 <= j < k :: Probe(original, j) in existing
  {
    var parent := original.parent;
    var fileName := original.fileName;
    var name := fileName;
    var extension := "";
    var dotIndex := LastIndexOfChar(fileName, '.');
    if dotIndex != -1 {
      name := fileName[..dotIndex];
      extension := fileName[dotIndex..];
    }
    var count := 1;
    path := original;
    ghost var left := existing;
    while path in existing
      invariant 1 <= count
      invariant path == Probe(original, count - 1)
      invariant forall j | 0 <= j < count - 1 :: Probe(original, j) in existing
      invariant left == existing - ProbedBefore(original, count - 1)
      decreases left
    {
      var newFileName := name + "_" + NatToString(count) + extension;
      path := Path(parent, newFileName);
      ProbeStep(original, count - 1);
      left := left - {Probe(original, count - 1)};
      count := count + 1;
    }
  }

  /** The `n`-th probe has not been made before, so each probe shrinks what is left. */
  lemma ProbeStep(original: Path, n: nat)
    ensures Probe(original, n) !in ProbedBefore(original, n)
    ensures ProbedBefore(original, n + 1) == ProbedBefore(original, n) + {Probe(original, n)}
  {
    if Probe(original, n) in ProbedBefore(original, n) {
      var k :| 0 <= k < n && Probe(original, k) == Probe(original, n);
      ProbeInjective(original, k, n);
    }
  }

  /**
   * A renamed probe stays in the same directory and keeps the extension;
   * only the stem gains `_k`.
   */
  lemma ProbeKeepsExtension(original: Path, k: nat)
    requires k > 0
    ensures Probe(original, k).parent == original.parent
    ensures Extension(Probe(original, k).fileName) == Extension(original.fileName)
    ensures Stem(Probe(original, k).fileName) == Stem(original.fileName) + "_" + NatToString(k)
  {
    var f := original.fileName;
    StemExtensionSplit(f);
    var pre := Stem(f) + "_" + NatToString(k);
    var n := Probe(original, k).fileName;
    assert n == pre + Extension(f);
    var dot := LastIndexOfChar(n, '.');
    if '.' in f {
      var e := Extension(f);
      assert n[|pre|] == '.';
      assert forall j | |pre| < j < |n| :: n[j] == e[1..][j - |pre| - 1];
      assert dot == |pre|;
      assert n[..dot] == pre && n[dot..] == e;
    } else {
      var d := NatToString(k);
      assert forall i | 0 <= i < |d| :: d[i] != '.';
      assert '.' !in pre;
      assert n == pre;
    }
  }

  // ---------------------------------------------------------------------------
  // `saveOnComputer`

  /** The directory generated images are written to. */
  const ImagesDirectory := "src/main/resources/static/images/"

  /** The file name `saveOnComputer` derives from the prompt. */
  function DiskFileName(prompt: string): (r: string)
    ensures |r| >= 4 && r[|r| - 4..] == ".png"
  {
    var head := prompt[..if |prompt| < 20 then |prompt| else 20];
    ReplaceChar(RemoveChar(RemoveChar(Lower(head), ','), '\''), ' ', '_') + ".png"
  }

  /**
   * The stem of the disk name has at most 20 characters, no upper-case
   * letter, and none of ',', '\'' or ' '; every character of it comes from
   * the first 20 of the prompt (lower-cased, a space turned into '_').
   */
  lemma DiskFileNameShape(prompt: string)
    ensures var r := DiskFileName(prompt); var stem := r[..|r| - 4];
      |stem| <= 20 && |stem| <= |prompt|
      && (forall k | 0 <= k < |stem| :: stem[k] != ',' && stem[k] != '\'' && stem[k] != ' ' && !('A' <= stem[k] <= 'Z'))
      && (forall c | c in stem :: c == '_' || c in Lower(prompt[..if |prompt| < 20 then |prompt| else 20]))
  {
    var head := prompt[..if |prompt| < 20 then |prompt| else 20];
    var low := Lower(head);
    var a := RemoveChar(low, ',');
    var b := RemoveChar(a, '\'');
    var c := ReplaceChar(b, ' ', '_');
    var r := DiskFileName(prompt);
    assert r == c + ".png";
    assert r[..|r| - 4] == c;
    forall k | 0 <= k < |c|
      ensures c[k] != ',' && c[k] != '\'' && c[k] != ' ' && !('A' <= c[k] <= 'Z')
      ensures c[k] == '_' || c[k] in low
    {
      assert b[k] in b;
      assert b[k] in a;
      assert b[k] in low;
      var i :| 0 <= i < |low| && low[i] == b[k];
      assert low[i] == LowerChar(head[i]);
    }
  }

  /**
   * A prompt of at most 20 characters with no upper-case letter and none of
   * ',', '\'' or ' ' is the stem of its own disk name.
   */
  lemma DiskFileNameKeepsPlainPrompt(prompt: string)
    requires |prompt| <= 20
    requires forall k | 0 <= k < |prompt| ::
      prompt[k] != ',' && prompt[k] != '\'' && prompt[k] != ' ' && !('A' <= prompt[k] <= 'Z')
    ensures DiskFileName(prompt) == prompt + ".png"
  {
    assert prompt[..|prompt|] == prompt;
    var low := Lower(prompt);
    assert low == prompt;
    RemoveAbsentChar(prompt, ',');
    RemoveAbsentChar(prompt, '\'');
    assert ReplaceChar(prompt, ' ', '_') == prompt;
  }

  /** Bytes of an image. */
  type Bytes = seq<bv8>

  /** A file written to disk. */
  datatype WrittenFile = WrittenFile(path: string, bytes: Bytes)

  /**
   * `saveOnComputer`: null bytes throw; otherwise the bytes go to
   * `ImagesDirectory + DiskFileName(prompt)`. `writeError` is the message
   * of the `IOException` the write raises, if it does.
   */
  function SaveOnComputer(prompt: string, imageBytes: Option<Bytes>, writeError: Option<string>): (r: Result<WrittenFile>)
    ensures imageBytes.None? ==> r == Err("Image bytes cannot be null")
    ensures imageBytes.Some? && writeError.Some? ==> r == Err(writeError.value)
    ensures r.Ok? <==> imageBytes.Some? && writeError.None?
    ensures r.Ok? ==> (StartsWith(r.value.path, ImagesDirectory) && r.value.bytes == imageBytes.value
      && r.value.path[|ImagesDirectory|..] == DiskFileName(prompt))
  {
    if imageBytes.None? then Err("Image bytes cannot be null")
    else if writeError.Some? then Err(writeError.value)
    else
      var path := ImagesDirectory + DiskFileName(prompt);
      assert path[..|ImagesDirectory|] == ImagesDirectory;
      Ok(WrittenFile(path, imageBytes.value))
  }

  // ---------------------------------------------------------------------------
  // `getImageFromDalle`

  /** `QualityEnum`. */
  datatype Quality = Low | Medium | High

  /** The image sizes the service asks for. */
  datatype ImageSize = X256 | X1024 | X1792X

  /** The fields of the `ImageRequest` the service builds. */
  datatype DalleRequest = DalleRequest(prompt: string, n: int, size: ImageSize, hd: bool, urlFormat: bool, model: string)

  /** The request built for a quality: the if-chain of `getImageFromDalle`. */
  function RequestFor(prompt: string, quality: Quality): (r: DalleRequest)
    ensures r.prompt == prompt && r.n == 1 && r.urlFormat
    ensures quality == Low <==> r.model == "dall-e-2"
    ensures quality != Low <==> r.model == "dall-e-3"
    ensures r.hd <==> quality == High
    ensures QualityOfSize(r.size) == quality
  {
    match quality
    case Low => DalleRequest(prompt, 1, X256, false, true, "dall-e-2")
    case Medium => DalleRequest(prompt, 1, X1024, false, true, "dall-e-3")
    case High => DalleRequest(prompt, 1, X1792X, true, true, "dall-e-3")
  }

  /** The quality a request was built for, read back from its size. */
  function QualityOfSize(size: ImageSize): Quality {
    match size
    case X256 => Low
    case X1024 => Medium
    case X1792X => High
  }

  /**
   * What happened to one DALL-E call: OpenAI returned no URL, the download
   * of the URL threw, or it answered with a body (which may be null).
   */
  datatype DalleReply = NoUrl | DownloadFailed(message: string) | Downloaded(body: Option<Bytes>)

  /** `getImageFromDalle` given the outcome of the call made with `RequestFor`. */
  function GetImageFromDalle(reply: DalleReply): (r: Result<Option<Bytes>>)
    ensures reply.NoUrl? ==> r == Err("No URL sent by OpenAI")
    ensures reply.DownloadFailed? ==> r == Err(reply.message)
    ensures r.Ok? <==> reply.Downloaded?
    ensures reply.Downloaded? ==> r.value == reply.body
  {
    match reply
    case NoUrl => Err("No URL sent by OpenAI")
    case DownloadFailed(m) => Err(m)
    case Downloaded(body) => Ok(body)
  }

  // ---------------------------------------------------------------------------
  // `saveImage` and `generateAndSaveImage`

  /** What `uploadImage` returned (URL and ID, either possibly null), or the message it threw. */
  datatype CloudUpload = CloudFailed(message: string) | Uploaded(url: Option<string>, id: Option<string>)

  /** The `RecordedImage` row; `id` is the key the repository assigns when saving it. */
  datatype RecordedImage = RecordedImage(id: int, imageName: string, cloudURI: string, cloudID: string, prompt: string)

  /**
   * `saveImage`: the cloud must return both a URL and an ID; the record is
   * named after the prompt with a budget of 100 characters.
   */
  function SaveImage(prompt: string, upload: CloudUpload, recordId: int): (r: Result<RecordedImage>)
    ensures upload.CloudFailed? ==> r == Err(upload.message)
    ensures upload.Uploaded? && (upload.url.None? || upload.id.None?) ==> r == Err("Error when uploading image to the cloud")
    ensures r.Ok? <==> upload.Uploaded? && upload.url.Some? && upload.id.Some?
    ensures r.Ok? ==> (r.value.cloudURI == upload.url.value && r.value.cloudID == upload.id.value
      && r.value.prompt == prompt && r.value.id == recordId)
    ensures r.Ok? ==> (r.value.imageName == FileNameFromPrompt(Some(prompt), 100)
      && |r.value.imageName| <= 104)
  {
    match upload
    case CloudFailed(m) => Err(m)
    case Uploaded(url, id) =>
      if url.None? || id.None? then Err("Error when uploading image to the cloud")
      else
        var fileName := FileNameFromPrompt(Some(prompt), 100);
        FileNameShape(Some(prompt), 100);
        Ok(RecordedImage(recordId, fileName, url.value, id.value, prompt))
  }

  /** `GeneratedImageDTO`. */
  datatype GeneratedImage = GeneratedImage(image: Bytes, internalID: int, externalID: string, storageURL: string)

  /**
   * The outcome of `generateAndSaveImage` together with what it did on the
   * way: the DALL-E requests sent, the bytes handed to the cloud upload
   * (`None` when no upload was attempted), the record saved in the
   * database and the file written to disk.
   */
  datatype Generation = Generation(
    result: Result<GeneratedImage>,
    requests: seq<DalleRequest>,
    uploaded: Option<Option<Bytes>>,
    recorded: Option<RecordedImage>,
    written: Option<WrittenFile>)

  /** The message thrown when DALL-E gives no image, or an empty one. */
  const NoImageMessage := "Failed to generate image from DALL-E"

  /** The part of `generateAndSaveImage` after a usable `content`: save, write to disk, answer. */
  function SaveGenerated(prompt: string, content: Bytes, toUpload: Option<Bytes>, requests: seq<DalleRequest>,
                         upload: CloudUpload, recordId: int, writeError: Option<string>): (g: Generation)
    ensures g.requests == requests && g.uploaded == Some(toUpload)
    ensures g.result.Ok? <==> SaveImage(prompt, upload, recordId).Ok? && writeError.None?
    ensures g.recorded.Some? <==> SaveImage(prompt, upload, recordId).Ok?
    ensures g.result.Ok? ==> g.result.value.image == content && g.written == Some(WrittenFile(ImagesDirectory + DiskFileName(prompt), content))
  {
    var saved := SaveImage(prompt, upload, recordId);
    if saved.Err? then Generation(Err(saved.error), requests, Some(toUpload), None, None)
    else
      var rec := saved.value;
      var disk := SaveOnComputer(prompt, Some(content), writeError);
      if disk.Err? then Generation(Err(disk.error), requests, Some(toUpload), Some(rec), None)
      else Generation(Ok(GeneratedImage(content, rec.id, rec.cloudID, rec.cloudURI)), requests, Some(toUpload), Some(rec), Some(disk.value))
  }

  /**
   * `generateAndSaveImage` as written: DALL-E is called a second time for
   * the argument of `saveImage`, so `second` is what reaches the cloud while
   * `first` is what is returned and written to disk.
   */
  function GenerateAndSaveImageAsWritten(prompt: string, quality: Quality, first: DalleReply, second: DalleReply,
                                         upload: CloudUpload, recordId: int, writeError: Option<string>): (g: Generation)
    ensures g.result.Ok? ==> |g.requests| == 2 && second.Downloaded? && g.uploaded == Some(second.body)
  {
    var request := RequestFor(prompt, quality);
    var content := GetImageFromDalle(first);
    if content.Err? then Generation(Err(content.error), [request], None, None, None)
    else if content.value.None? || |content.value.value| == 0 then Generation(Err(NoImageMessage), [request], None, None, None)
    else
      var again := GetImageFromDalle(second);
      if again.Err? then Generation(Err(again.error), [request, request], None, None, None)
      else SaveGenerated(prompt, content.value.value, again.value, [request, request], upload, recordId, writeError)
  }

  /**
   * Two DALL-E calls that return different images: the call succeeds,
   * returns and stores the first image, and uploads the second.
   */
  lemma SecondImageIsUploaded()
    ensures var g := GenerateAndSaveImageAsWritten("cat", Low, Downloaded(Some([1])), Downloaded(Some([2])),
                                                   Uploaded(Some("u"), Some("i")), 7, None);
      g.result.Ok? && g.result.value.image == [1] && g.written.value.bytes == [1]
      && g.uploaded == Some(Some([2])) && |g.requests| == 2
  {
  }

  /**
   * `generateAndSaveImage` as intended: one DALL-E call, whose image is
   * returned, uploaded and written to disk.
   */
  function GenerateAndSaveImage(prompt: string, quality: Quality, reply: DalleReply,
                                upload: CloudUpload, recordId: int, writeError: Option<string>): (g: Generation)
    ensures g.requests == [RequestFor(prompt, quality)]
    ensures reply.Downloaded? && (reply.body.None? || reply.body.value == []) ==> g.result == Err(NoImageMessage)
    ensures g.result.Ok? <==> (reply.Downloaded? && reply.body.Some? && reply.body.value != []
                               && SaveImage(prompt, upload, recordId).Ok? && writeError.None?)
    ensures g.result.Ok? ==> (reply.Downloaded? && Some(g.result.value.image) == reply.body
      && g.uploaded == Some(Some(g.result.value.image))
      && g.written == Some(WrittenFile(ImagesDirectory + DiskFileName(prompt), g.result.value.image)))
    ensures g.uploaded.Some? ==> reply.Downloaded? && g.uploaded == Some(reply.body)
  {
    var request := RequestFor(prompt, quality);
    var content := GetImageFromDalle(reply);
    if content.Err? then Generation(Err(content.error), [request], None, None, None)
    else if content.value.None? || |content.value.value| == 0 then Generation(Err(NoImageMessage), [request], None, None, None)
    else SaveGenerated(prompt, content.value.value, content.value, [request], upload, recordId, writeError)
  }
}
