/**
 The log and value files of a table, and how their order is recovered after a restart.

 Files carry an 8-bit sequence number that wraps from 255 to 0. While the process runs the lists are in creation
 order; after a restart the order is rebuilt by sorting, looking for a gap, and rotating.
 */
module FileManagers {
  import opened Wrappers
  import opened SortedKeys
  import opened StringUtils

  datatype StreamFile = StreamFile(filePath: string, sequenceNumber: uint8)

  datatype FileError = InvalidFileName | NotANumber(e: NumberError) | InvalidSequenceNumber
                     | TooManyFiles | FilesEmpty

  // ---------- file names ----------

  lemma ThreeDigits(a: char, b: char, c: char)
    requires IsDigit(a) && IsDigit(b) && IsDigit(c)
    ensures AllDigits([a, b, c])
    ensures NumeralValue([a, b, c]) == 100 * DigitValue(a) + 10 * DigitValue(b) + DigitValue(c)
  {
    assert [a, b, c][..2] == [a, b] && [a, b][..1] == [a] && [a][..0] == [];
    assert NumeralValue([a]) == DigitValue(a);
    assert NumeralValue([a, b]) == 10 * DigitValue(a) + DigitValue(b);
  }

  /** The "%03d" form of a sequence number. */
  function Padded(n: uint8): (s: string)
    ensures |s| == 3 && AllDigits(s) && NumeralValue(s) == n
  {
    ThreeDigits(DigitChar(n / 100), DigitChar(n / 10 % 10), DigitChar(n % 10));
    [DigitChar(n / 100), DigitChar(n / 10 % 10), DigitChar(n % 10)]
  }

  function FilePath(dataPath: string, tableName: string, n: uint8, extension: string): string {
    dataPath + "/" + tableName + "." + Padded(n) + extension
  }

  /** The last index up to `last` that holds c. */
  function FindLastOf(s: string, c: char, last: nat): (r: Option<nat>)
    requires last < |s|
    ensures r.Some? ==> r.value <= last && s[r.value] == c && forall i :: r.value < i <= last ==> s[i] != c
    ensures r.None? ==> forall i :: 0 <= i <= last ==> s[i] != c
    decreases last
  {
    if s[last] == c then Some(last)
    else if last == 0 then None
    else FindLastOf(s, c, last - 1)
  }

  /** find_last_of over the whole string. */
  function FindLast(s: string, c: char): (r: Option<nat>)
    ensures r.Some? ==> r.value < |s| && s[r.value] == c && forall i :: r.value < i < |s| ==> s[i] != c
    ensures r.None? ==> forall i :: 0 <= i < |s| ==> s[i] != c
  {
    if s == [] then None else FindLastOf(s, c, |s| - 1)
  }

  /**
   The number between the last two dots. The second search starts one before the last dot; when the last dot is
   missing or at index 0 the unsigned position wraps and the whole string is searched.
   */
  function GetSequenceNumber(filePath: string): Result<uint8, FileError> {
    var lastDot := FindLast(filePath, '.');
    var prevDot := if lastDot.None? || lastDot.value == 0 then FindLast(filePath, '.')
                   else FindLastOf(filePath, '.', lastDot.value - 1);
    if lastDot.None? || prevDot.None? then Err(InvalidFileName) else
    var start := prevDot.value + 1;
    var numString := if start <= lastDot.value then filePath[start..lastDot.value] else filePath[start..];
    match Stoi(numString)
    case Err(e) => Err(NotANumber(e))
    case Ok(num) => if num < 0 || num > 255 then Err(InvalidSequenceNumber) else Ok(num)
  }

  predicate Extension(extension: string) {
    extension != [] && extension[0] == '.' && '.' !in extension[1..]
  }

  lemma DotsAt(path: string, k: nat, m: nat)
    requires k + 1 + m < |path| && path[k] == '.' && path[k + 1 + m] == '.'
    requires '.' !in path[k + 1..k + 1 + m] && '.' !in path[k + 2 + m..]
    ensures FindLast(path, '.') == Some(k + 1 + m) && FindLastOf(path, '.', k + m) == Some(k)
  {
    hide FindLast, FindLastOf;
    forall i | k + 1 + m < i < |path| ensures path[i] != '.' {
      assert path[i] == path[k + 2 + m..][i - k - 2 - m];
    }
    forall i | k < i < k + 1 + m ensures path[i] != '.' {
      assert path[i] == path[k + 1..k + 1 + m][i - k - 1];
    }
  }

  lemma DotsOf(front: string, number: string, extension: string)
    requires '.' !in number && Extension(extension)
    ensures var path, k, m := front + ("." + (number + extension)), |front|, |number|;
      && FindLast(path, '.') == Some(k + 1 + m) && FindLastOf(path, '.', k + m) == Some(k)
      && path[k + 1..k + 1 + m] == number
  {
    hide FindLast, FindLastOf;
    var path, k, m := front + ("." + (number + extension)), |front|, |number|;
    assert path[k..] == "." + (number + extension);
    assert path[k + 1..] == number + extension;
    assert path[k + 1..k + 1 + m] == number;
    assert path[k + 1 + m..] == extension;
    assert path[k + 2 + m..] == extension[1..];
    DotsAt(path, k, m);
  }

  /** The number between the last two dots of a path: its value from 0 to 255, an error beyond. */
  lemma PathNumber(front: string, sign: string, digits: string, extension: string)
    requires digits != [] && AllDigits(digits) && Extension(extension)
    requires sign == "" || sign == "+" || sign == "-"
    ensures var n := NumeralValue(digits);
      GetSequenceNumber(front + "." + (sign + digits) + extension)
      == if n > (if sign == "-" then 0x8000_0000 else 0x7FFF_FFFF) then Err(NotANumber(TooLarge))
         else if n > 255 || (sign == "-" && n > 0) then Err(InvalidSequenceNumber)
         else Ok(n)
  {
    hide FindLast, FindLastOf, SignedPrefix, NumeralValue;
    var number := sign + digits;
    DotsOf(front, number, extension);
    assert front + "." + number + extension == front + ("." + (number + extension));
    SignedPrefixReads("", sign, digits, "");
    assert "" + (sign + (digits + "")) == number;
  }

  /** A path without two dots names no number, unless its only dot comes first. */
  lemma DotsMissing(path: string)
    ensures GetSequenceNumber(path) == Err(InvalidFileName) <==>
      (path == [] || path[0] != '.') && !exists i, j :: 0 <= i < j < |path| && path[i] == '.' && path[j] == '.'
  {
  }

  /** A file's number is read back from its path, whatever the directory and table are called. */
  lemma FileNameRoundTrip(dataPath: string, tableName: string, n: uint8, extension: string)
    requires Extension(extension)
    ensures GetSequenceNumber(FilePath(dataPath, tableName, n, extension)) == Ok(n)
  {
    hide GetSequenceNumber, Padded;
    PathNumber(dataPath + "/" + tableName, "", Padded(n), extension);
    assert "" + Padded(n) == Padded(n);
  }

  // ---------- the ring of sequence numbers ----------

  /** Each file's number follows the one before it, and 0 follows 255. */
  predicate Contiguous(files: seq<StreamFile>) {
    forall i :: 0 < i < |files| ==> files[i].sequenceNumber == (files[i - 1].sequenceNumber + 1) % 256
  }

  predicate Distinct(files: seq<StreamFile>) {
    forall i, j :: 0 <= i < j < |files| ==> files[i].sequenceNumber != files[j].sequenceNumber
  }

  /** The number i places after `start` on the ring. */
  function Ahead(start: uint8, i: nat): uint8 {
    (start + i) % 256
  }

  lemma AheadStep(start: uint8, i: nat)
    ensures Ahead(start, 0) == start
    ensures Ahead(start, i + 1) == (Ahead(start, i) + 1) % 256
    ensures Ahead(start, i + 1) == if Ahead(start, i) == 255 then 0 else Ahead(start, i) + 1
  {
  }

  lemma {:induction false} ContiguousNumber(files: seq<StreamFile>, i: nat)
    requires Contiguous(files) && i < |files|
    ensures files[i].sequenceNumber == Ahead(files[0].sequenceNumber, i)
  {
    hide Ahead;
    AheadStep(files[0].sequenceNumber, if i > 0 then i - 1 else 0);
    if i > 0 {
      ContiguousNumber(files, i - 1);
    }
  }

  /** A contiguous run has no repeated number exactly while it fits the 8-bit range. */
  lemma DistinctIffFits(files: seq<StreamFile>)
    requires Contiguous(files)
    ensures Distinct(files) <==> |files| <= 256
  {
    forall i, j | 0 <= i < j < |files| && j < 256
      ensures files[i].sequenceNumber != files[j].sequenceNumber
    {
      ContiguousNumber(files, i);
      ContiguousNumber(files, j);
    }
    if |files| > 256 {
      ContiguousNumber(files, 256);
    }
  }

  /** The number given to the file created after `files`. */
  function NextNumber(files: seq<StreamFile>): uint8 {
    if files == [] then 0 else (files[|files| - 1].sequenceNumber + 1) % 256
  }

  /** Adding keeps the run contiguous always, and duplicate-free exactly when it had fewer than 256 members. */
  lemma AddingKeepsRing(files: seq<StreamFile>, file: StreamFile)
    requires Contiguous(files) && Distinct(files)
    requires file.sequenceNumber == NextNumber(files)
    ensures Contiguous(files + [file])
    ensures Distinct(files + [file]) <==> |files| < 256
  {
    DistinctIffFits(files);
    DistinctIffFits(files + [file]);
  }

  // ---------- sort, gap search, rotation ----------

  predicate Sorted(files: seq<StreamFile>) {
    forall i, j :: 0 <= i < j < |files| ==> files[i].sequenceNumber <= files[j].sequenceNumber
  }

  predicate GapAt(files: seq<StreamFile>, i: int)
    requires Sorted(files)
  {
    0 <= i < |files| - 1 && files[i + 1].sequenceNumber - files[i].sequenceNumber > 1
  }

  predicate FirstGap(files: seq<StreamFile>, i: int)
    requires Sorted(files)
  {
    GapAt(files, i) && forall j :: 0 <= j < i ==> !GapAt(files, j)
  }

  /** `ordered` is the sorted list, rotated to start after its first gap if it has one and the ring is not full. */
  ghost predicate Unwrapped(sorted: seq<StreamFile>, ordered: seq<StreamFile>)
    requires Sorted(sorted)
  {
    (exists i :: |sorted| != 256 && FirstGap(sorted, i) && ordered == sorted[i + 1..] + sorted[..i + 1])
    || (ordered == sorted && (|sorted| == 256 || forall i :: !GapAt(sorted, i)))
  }

  predicate SortedFrom(sorted: seq<StreamFile>, files: seq<StreamFile>) {
    Sorted(sorted) && multiset(sorted) == multiset(files)
  }

  /** What ordering a list of at most 256 files leaves behind. */
  ghost predicate OrderedFrom(ordered: seq<StreamFile>, files: seq<StreamFile>) {
    exists sorted :: SortedFrom(sorted, files) && Unwrapped(sorted, ordered)
  }

  lemma InsertedSorts(sorted: seq<StreamFile>, k: nat, file: StreamFile)
    requires Sorted(sorted) && k <= |sorted|
    requires k > 0 ==> sorted[k - 1].sequenceNumber <= file.sequenceNumber
    requires k < |sorted| ==> file.sequenceNumber < sorted[k].sequenceNumber
    ensures Sorted(sorted[..k] + [file] + sorted[k..])
  {
    var s := sorted[..k] + [file] + sorted[k..];
    forall i, j | 0 <= i < j < |s| ensures s[i].sequenceNumber <= s[j].sequenceNumber {
      assert i < k ==> s[i] == sorted[i];
      assert i > k ==> s[i] == sorted[i - 1];
      assert j < k ==> s[j] == sorted[j];
      assert j > k ==> s[j] == sorted[j - 1];
    }
  }

  lemma InsertedElements(sorted: seq<StreamFile>, k: nat, file: StreamFile)
    requires k <= |sorted|
    ensures multiset(sorted[..k] + [file] + sorted[k..]) == multiset(sorted) + multiset{file}
  {
    assert sorted == sorted[..k] + sorted[k..];
  }

  lemma NoneSorted(files: seq<StreamFile>)
    requires files == []
    ensures Sorted(files)
  {
  }

  /** std::sort, by insertion: equal numbers may end in any order, and nothing here relies on which. */
  method Sort(files: seq<StreamFile>) returns (sorted: seq<StreamFile>)
    ensures SortedFrom(sorted, files)
  {
    hide Sorted;
    sorted := [];
    NoneSorted(sorted);
    for n := 0 to |files|
      invariant Sorted(sorted) && multiset(sorted) == multiset(files[..n])
    {
      var k := |sorted|;
      while k > 0 && sorted[k - 1].sequenceNumber > files[n].sequenceNumber
        invariant 0 <= k <= |sorted|
        invariant k < |sorted| ==> files[n].sequenceNumber < sorted[k].sequenceNumber
      {
        k := k - 1;
      }
      InsertedSorts(sorted, k, files[n]);
      InsertedElements(sorted, k, files[n]);
      assert files[..n + 1] == files[..n] + [files[n]];
      sorted := sorted[..k] + [files[n]] + sorted[k..];
    }
    assert files == files[..|files|];
  }

  /** std::adjacent_find: the first index followed by a gap, or the last index. */
  method FindGap(files: seq<StreamFile>) returns (gap: nat)
    requires Sorted(files) && files != []
    ensures gap < |files|
    ensures if gap < |files| - 1 then FirstGap(files, gap) else forall i :: !GapAt(files, i)
    ensures gap < |files| - 1 ==> files[gap + 1].sequenceNumber - files[gap].sequenceNumber > 1
    ensures forall i :: 0 < i <= gap ==> files[i].sequenceNumber - files[i - 1].sequenceNumber <= 1
  {
    gap := 0;
    while gap < |files| - 1 && files[gap + 1].sequenceNumber - files[gap].sequenceNumber <= 1
      invariant gap < |files|
      invariant forall j :: 0 <= j < gap ==> !GapAt(files, j)
      invariant forall i :: 0 < i <= gap ==> files[i].sequenceNumber - files[i - 1].sequenceNumber <= 1
    {
      gap := gap + 1;
    }
  }

  /** start is where the sorted list is cut: after its first gap, or 0 when nothing is rotated. */
  method OrderFiles(files: seq<StreamFile>)
    returns (r: Result<seq<StreamFile>, FileError>, ghost sorted: seq<StreamFile>, ghost start: nat)
    ensures r.Err? <==> |files| > 256
    ensures r.Err? ==> r.error == TooManyFiles
    ensures r.Ok? ==> OrderedFrom(r.value, files)
    ensures r.Ok? ==>
              && multiset(sorted) == multiset(files)
              && (forall i, j :: 0 <= i < j < |sorted| ==> sorted[i].sequenceNumber <= sorted[j].sequenceNumber)
              && start <= |sorted| && r.value == sorted[start..] + sorted[..start]
              && (start > 0 ==> start < |sorted| < 256
                                && sorted[start].sequenceNumber - sorted[start - 1].sequenceNumber > 1)
              && (|sorted| < 256 ==> forall i :: 0 < i < (if start > 0 then start else |sorted|) ==>
                                       sorted[i].sequenceNumber - sorted[i - 1].sequenceNumber <= 1)
  {
    hide Unwrapped, GapAt, FirstGap;
    sorted, start := files, 0;
    if |files| <= 1 {
      Uncut(files);
      return Ok(files), files, 0;
    }
    if |files| > 256 {
      return Err(TooManyFiles), files, 0;
    }
    var ordered := Sort(files);
    sorted := ordered;
    assert |sorted| == |multiset(sorted)| == |files|;
    if |ordered| == 256 {
      Uncut(sorted);
      return Ok(ordered), sorted, 0;
    }
    var gap := FindGap(ordered);
    Cut(sorted, gap);
    if gap < |ordered| - 1 {
      ordered := ordered[gap + 1..] + ordered[..gap + 1];
      return Ok(ordered), sorted, gap + 1;
    }
    return Ok(ordered), sorted, 0;
  }

  lemma Uncut(sorted: seq<StreamFile>)
    requires |sorted| <= 1 || (|sorted| == 256 && Sorted(sorted))
    ensures Sorted(sorted) && Unwrapped(sorted, sorted)
  {
  }

  lemma Cut(sorted: seq<StreamFile>, gap: nat)
    requires Sorted(sorted) && gap < |sorted| != 256
    requires if gap < |sorted| - 1 then FirstGap(sorted, gap) else forall i :: !GapAt(sorted, i)
    ensures Unwrapped(sorted, if gap < |sorted| - 1 then sorted[gap + 1..] + sorted[..gap + 1] else sorted)
  {
  }

  // ---------- restart recovers the order ----------

  lemma SameFirst(a: seq<StreamFile>, b: seq<StreamFile>)
    requires Sorted(a) && Sorted(b) && Distinct(b) && multiset(a) == multiset(b) && a != [] && b != []
    ensures a[0] == b[0]
  {
    assert a[0] in multiset(b) && b[0] in multiset(a);
    var i :| 0 <= i < |b| && b[i] == a[0];
    var j :| 0 <= j < |a| && a[j] == b[0];
  }

  lemma SameRest(a: seq<StreamFile>, b: seq<StreamFile>)
    requires a != [] && b != [] && multiset(a) == multiset(b) && a[0] == b[0]
    ensures multiset(a[1..]) == multiset(b[1..])
  {
    assert a == [a[0]] + a[1..] && b == [b[0]] + b[1..];
    assert multiset(a[1..]) == multiset(a) - multiset{a[0]};
  }

  /** With distinct numbers there is one sorted arrangement. */
  lemma {:induction false} SortedUnique(a: seq<StreamFile>, b: seq<StreamFile>)
    requires Sorted(a) && Sorted(b) && Distinct(b) && multiset(a) == multiset(b)
    ensures a == b
  {
    assert |multiset(a)| == |a| && |multiset(b)| == |b|;
    if a != [] {
      SameFirst(a, b);
      SameRest(a, b);
      SortedUnique(a[1..], b[1..]);
      assert a == [a[0]] + a[1..] && b == [b[0]] + b[1..];
    }
  }

  /** How many files of the run come before its number wraps to 0. */
  function BeforeWrap(run: seq<StreamFile>): (w: nat)
    requires run != []
    ensures w <= |run|
  {
    if 256 - run[0].sequenceNumber < |run| then 256 - run[0].sequenceNumber else |run|
  }

  function SortedForm(run: seq<StreamFile>): seq<StreamFile>
    requires run != []
  {
    run[BeforeWrap(run)..] + run[..BeforeWrap(run)]
  }

  lemma SortedFormNumbers(run: seq<StreamFile>, i: nat)
    requires run != [] && Contiguous(run) && i < |run| <= 256
    ensures var w, m, a := BeforeWrap(run), |run|, run[0].sequenceNumber;
      SortedForm(run)[i].sequenceNumber == if i < m - w then i else a + (i - (m - w))
  {
    var w := BeforeWrap(run);
    ContiguousNumber(run, if i < |run| - w then i + w else i - (|run| - w));
  }

  lemma SortedFormSorts(run: seq<StreamFile>)
    requires run != [] && Contiguous(run) && |run| <= 256
    ensures SortedFrom(SortedForm(run), run) && Distinct(SortedForm(run))
  {
    var s := SortedForm(run);
    forall i, j | 0 <= i < j < |s| ensures s[i].sequenceNumber < s[j].sequenceNumber {
      SortedFormNumbers(run, i);
      SortedFormNumbers(run, j);
    }
    assert run == run[..BeforeWrap(run)] + run[BeforeWrap(run)..];
  }

  /** The only gap of a wrapped run is where it starts, and it shows only while a number is missing. */
  lemma SortedFormGap(run: seq<StreamFile>, i: int)
    requires run != [] && Contiguous(run) && |run| <= 256
    ensures Sorted(SortedForm(run))
    ensures GapAt(SortedForm(run), i) <==> 0 < BeforeWrap(run) < |run| < 256 && i == |run| - BeforeWrap(run) - 1
  {
    SortedFormSorts(run);
    if 0 <= i < |run| - 1 {
      SortedFormNumbers(run, i);
      SortedFormNumbers(run, i + 1);
    }
  }

  /**
   Sorting, gap search and rotation give back the creation order of a contiguous run, from any arrangement of it,
   unless all 256 numbers are in use and the run does not start at 0.
   */
  lemma RestartRecovers(run: seq<StreamFile>, found: seq<StreamFile>, ordered: seq<StreamFile>)
    requires Contiguous(run) && |run| <= 256
    requires multiset(found) == multiset(run) && OrderedFrom(ordered, found)
    ensures ordered == run <==> |run| < 256 || run[0].sequenceNumber == 0
  {
    hide Unwrapped, Sorted, Distinct, Contiguous;
    var sorted :| SortedFrom(sorted, found) && Unwrapped(sorted, ordered);
    if run == [] {
      assert |multiset(sorted)| == |sorted|;
      UnwrappedEmpty(sorted, ordered);
    } else {
      SortedFormSorts(run);
      SortedUnique(sorted, SortedForm(run));
      UnwrappedForm(run, ordered);
    }
  }

  lemma UnwrappedEmpty(sorted: seq<StreamFile>, ordered: seq<StreamFile>)
    requires Sorted(sorted) && Unwrapped(sorted, ordered) && sorted == []
    ensures ordered == []
  {
  }

  lemma UnwrappedForm(run: seq<StreamFile>, ordered: seq<StreamFile>)
    requires run != [] && Contiguous(run) && |run| <= 256
    requires Sorted(SortedForm(run)) && Unwrapped(SortedForm(run), ordered)
    ensures ordered == run <==> |run| < 256 || run[0].sequenceNumber == 0
  {
    hide Sorted, Contiguous;
    var sorted, w := SortedForm(run), BeforeWrap(run);
    SortedFormNumbers(run, 0);
    forall i ensures GapAt(sorted, i) <==> 0 < w < |run| < 256 && i == |run| - w - 1 {
      SortedFormGap(run, i);
    }
    if 0 < w < |run| < 256 {
      assert GapAt(sorted, |run| - w - 1);
      assert sorted[|run| - w..] + sorted[..|run| - w] == run;
    } else if w == |run| {
      assert sorted == run;
    }
  }

  /** Up to 255 files can be arranged contiguously in one way only. */
  lemma ContiguousUnique(a: seq<StreamFile>, b: seq<StreamFile>)
    requires Contiguous(a) && Contiguous(b) && multiset(a) == multiset(b) && |a| < 256
    ensures a == b
  {
    assert |multiset(a)| == |a| && |multiset(b)| == |b|;
    if a != [] {
      var ordered := OrderOf(a);
      RestartRecovers(a, a, ordered);
      RestartRecovers(b, a, ordered);
    }
  }

  lemma OrderOf(run: seq<StreamFile>) returns (ordered: seq<StreamFile>)
    requires run != [] && Contiguous(run) && |run| < 256
    ensures OrderedFrom(ordered, run)
  {
    hide Sorted, Contiguous, Distinct, BeforeWrap;
    var s, w := SortedForm(run), BeforeWrap(run);
    SortedFormSorts(run);
    forall i ensures GapAt(s, i) <==> 0 < w < |run| && i == |run| - w - 1 {
      SortedFormGap(run, i);
    }
    var i := |run| - w - 1;
    if GapAt(s, i) {
      assert FirstGap(s, i);
      ordered := s[i + 1..] + s[..i + 1];
    } else {
      ordered := s;
    }
    assert Unwrapped(s, ordered);
  }

  /** A full ring can be arranged contiguously from any of its files on, so the numbers cannot tell where it began. */
  lemma FullRingAmbiguous(run: seq<StreamFile>, k: nat)
    requires Contiguous(run) && |run| == 256 && 0 < k < 256
    ensures var rotated := run[k..] + run[..k];
      Contiguous(rotated) && multiset(rotated) == multiset(run) && rotated != run
  {
    var rotated := run[k..] + run[..k];
    RotatedContiguous(run, k);
    ContiguousNumber(run, k);
    assert rotated[0].sequenceNumber != run[0].sequenceNumber;
    assert run == run[..k] + run[k..];
  }

  lemma RotatedContiguous(run: seq<StreamFile>, k: nat)
    requires Contiguous(run) && |run| == 256 && 0 < k < 256
    ensures Contiguous(run[k..] + run[..k])
  {
    hide Contiguous;
    var rotated := run[k..] + run[..k];
    forall i | 0 < i < 256 ensures rotated[i].sequenceNumber == (rotated[i - 1].sequenceNumber + 1) % 256 {
      RotatedNumber(run, k, i - 1);
      RotatedNumber(run, k, i);
    }
    AreContiguous(rotated);
  }

  lemma AreContiguous(files: seq<StreamFile>)
    requires forall i :: 0 < i < |files| ==> files[i].sequenceNumber == (files[i - 1].sequenceNumber + 1) % 256
    ensures Contiguous(files)
  {
  }

  lemma RotatedNumber(run: seq<StreamFile>, k: nat, i: nat)
    requires Contiguous(run) && |run| == 256 && 0 < k < 256 && i < 256
    ensures (run[k..] + run[..k])[i].sequenceNumber == (run[0].sequenceNumber + k + i) % 256
  {
    ContiguousNumber(run, if i < 256 - k then k + i else i - (256 - k));
  }

  // ---------- the file lists of one table ----------

  /** The files of a list of paths, in its order, or the error of the first path that has none. */
  function Parsed(paths: seq<string>): Result<seq<StreamFile>, FileError> {
    if paths == [] then Ok([]) else
    match Parsed(paths[..|paths| - 1])
    case Err(e) => Err(e)
    case Ok(files) => ParsedNext(files, paths[|paths| - 1])
  }

  function ParsedNext(files: seq<StreamFile>, path: string): Result<seq<StreamFile>, FileError> {
    match GetSequenceNumber(path)
    case Err(e) => Err(e)
    case Ok(n) => Ok(files + [StreamFile(path, n)])
  }

  /** All paths parse, each into its own file; or the first that does not gives the error. */
  lemma {:induction false} ParsedMeans(paths: seq<string>)
    ensures Parsed(paths).Ok? <==> forall i :: 0 <= i < |paths| ==> GetSequenceNumber(paths[i]).Ok?
    ensures Parsed(paths).Ok? ==> |Parsed(paths).value| == |paths|
    ensures Parsed(paths).Ok? ==> forall i :: 0 <= i < |paths| ==>
      Parsed(paths).value[i] == StreamFile(paths[i], GetSequenceNumber(paths[i]).value)
    ensures Parsed(paths).Err? ==> exists i :: (
        && 0 <= i < |paths| && GetSequenceNumber(paths[i]) == Err(Parsed(paths).error)
        && forall j :: 0 <= j < i ==> GetSequenceNumber(paths[j]).Ok?)
  {
    hide GetSequenceNumber;
    if paths != [] {
      var front := paths[..|paths| - 1];
      ParsedMeans(front);
      assert forall i :: 0 <= i < |front| ==> front[i] == paths[i];
      if Parsed(front).Err? {
        var i :| 0 <= i < |front| && GetSequenceNumber(front[i]) == Err(Parsed(front).error)
          && forall j :: 0 <= j < i ==> GetSequenceNumber(front[j]).Ok?;
        assert GetSequenceNumber(paths[i]) == Err(Parsed(paths).error);
      } else {
        assert Parsed(paths) == ParsedNext(Parsed(front).value, paths[|paths| - 1]);
      }
    }
  }

  function Paths(files: seq<StreamFile>): (paths: seq<string>)
    ensures |paths| == |files| && forall i :: 0 <= i < |files| ==> paths[i] == files[i].filePath
  {
    seq(|files|, i requires 0 <= i < |files| => files[i].filePath)
  }

  class FileManager {
    const dataPath: string
    const tableName: string
    var lsFiles: seq<StreamFile>
    var vsFiles: seq<StreamFile>

    constructor (dataPath: string, tableName: string)
      ensures this.dataPath == dataPath && this.tableName == tableName
      ensures lsFiles == [] && vsFiles == []
    {
      this.dataPath, this.tableName := dataPath, tableName;
      lsFiles, vsFiles := [], [];
    }

    predicate Named(files: seq<StreamFile>, extension: string) {
      forall i :: 0 <= i < |files| ==>
        files[i].filePath == FilePath(dataPath, tableName, files[i].sequenceNumber, extension)
    }

    /** Discovers the files at the paths the directory lists, then orders each list. */
    method Initialize(lsPaths: seq<string>, vsPaths: seq<string>) returns (r: Result<(), FileError>)
      modifies this
      ensures Parsed(lsPaths).Err? ==> r == Err(Parsed(lsPaths).error)
      ensures Parsed(lsPaths).Ok? && Parsed(vsPaths).Err? ==> r == Err(Parsed(vsPaths).error)
      ensures Parsed(lsPaths).Ok? && Parsed(vsPaths).Ok? ==>
        if |old(lsFiles)| + |lsPaths| > 256 || |old(vsFiles)| + |vsPaths| > 256 then r == Err(TooManyFiles)
        else r.Ok? && OrderedFrom(lsFiles, old(lsFiles) + Parsed(lsPaths).value)
                   && OrderedFrom(vsFiles, old(vsFiles) + Parsed(vsPaths).value)
    {
      hide GetSequenceNumber, OrderedFrom, Parsed;
      ParsedGrows([], 0);
      ParsedMeans(lsPaths);
      ParsedMeans(vsPaths);
      for i := 0 to |lsPaths|
        invariant vsFiles == old(vsFiles)
        invariant Parsed(lsPaths[..i]).Ok? && lsFiles == old(lsFiles) + Parsed(lsPaths[..i]).value
      {
        var n := GetSequenceNumber(lsPaths[i]);
        ParsedGrows(lsPaths, i);
        if n.Err? {
          return Err(n.error);
        }
        lsFiles := lsFiles + [StreamFile(lsPaths[i], n.value)];
      }
      assert lsPaths[..|lsPaths|] == lsPaths;
      label Discovered:
      for i := 0 to |vsPaths|
        invariant lsFiles == old@Discovered(lsFiles)
        invariant Parsed(vsPaths[..i]).Ok? && vsFiles == old(vsFiles) + Parsed(vsPaths[..i]).value
      {
        var n := GetSequenceNumber(vsPaths[i]);
        ParsedGrows(vsPaths, i);
        if n.Err? {
          return Err(n.error);
        }
        vsFiles := vsFiles + [StreamFile(vsPaths[i], n.value)];
      }
      assert vsPaths[..|vsPaths|] == vsPaths;
      var ls, sorted, start := OrderFiles(lsFiles);
      if ls.Err? {
        return Err(ls.error);
      }
      lsFiles := ls.value;
      var vs;
      vs, sorted, start := OrderFiles(vsFiles);
      if vs.Err? {
        return Err(vs.error);
      }
      vsFiles := vs.value;
      return Ok(());
    }

    method GetCurrentLsFile() returns (r: Result<StreamFile, FileError>)
      ensures r == if lsFiles == [] then Err(FilesEmpty) else Ok(lsFiles[|lsFiles| - 1])
    {
      if |lsFiles| == 0 {
        return Err(FilesEmpty);
      }
      return Ok(lsFiles[|lsFiles| - 1]);
    }

    method GetCurrentVsFile() returns (r: Result<StreamFile, FileError>)
      ensures r == if vsFiles == [] then Err(FilesEmpty) else Ok(vsFiles[|vsFiles| - 1])
    {
      if |vsFiles| == 0 {
        return Err(FilesEmpty);
      }
      return Ok(vsFiles[|vsFiles| - 1]);
    }

    method AddLsFile() returns (file: StreamFile)
      modifies this`lsFiles
      ensures lsFiles == old(lsFiles) + [file]
      ensures old(lsFiles) == [] ==> file.sequenceNumber == 0
      ensures old(lsFiles) != [] ==>
                file.sequenceNumber == (old(lsFiles)[|old(lsFiles)| - 1].sequenceNumber + 1) % 256
      ensures file.sequenceNumber == NextNumber(old(lsFiles))
      ensures file.filePath == dataPath + "/" + tableName + "." + Padded(file.sequenceNumber) + ".ls"
      ensures Named(old(lsFiles), ".ls") ==> Named(lsFiles, ".ls")
    {
      hide Padded;
      var sequenceNumber: uint8 := 0;
      if |lsFiles| > 0 {
        var current := GetCurrentLsFile();
        if current.value.sequenceNumber != 255 {
          sequenceNumber := current.value.sequenceNumber + 1;
        }
      }
      file := StreamFile(FilePath(dataPath, tableName, sequenceNumber, ".ls"), sequenceNumber);
      lsFiles := lsFiles + [file];
    }

    method AddVsFile() returns (file: StreamFile)
      modifies this`vsFiles
      ensures vsFiles == old(vsFiles) + [file]
      ensures old(vsFiles) == [] ==> file.sequenceNumber == 0
      ensures old(vsFiles) != [] ==>
                file.sequenceNumber == (old(vsFiles)[|old(vsFiles)| - 1].sequenceNumber + 1) % 256
      ensures file.sequenceNumber == NextNumber(old(vsFiles))
      ensures file.filePath == dataPath + "/" + tableName + "." + Padded(file.sequenceNumber) + ".vs"
      ensures Named(old(vsFiles), ".vs") ==> Named(vsFiles, ".vs")
    {
      hide Padded;
      var sequenceNumber: uint8 := 0;
      if |vsFiles| > 0 {
        var current := GetCurrentVsFile();
        if current.value.sequenceNumber != 255 {
          sequenceNumber := current.value.sequenceNumber + 1;
        }
      }
      file := StreamFile(FilePath(dataPath, tableName, sequenceNumber, ".vs"), sequenceNumber);
      vsFiles := vsFiles + [file];
    }

    /** The lists pair up file by file. The source asserts that the sizes agree before it indexes both. */
    predicate Paired()
      reads this
    {
      && |lsFiles| == |vsFiles|
      && forall i :: 0 <= i < |lsFiles| ==> lsFiles[i].sequenceNumber == vsFiles[i].sequenceNumber
    }

    method Validate() returns (valid: bool)
      requires |lsFiles| <= |vsFiles|
      ensures valid <==> Paired() && Contiguous(lsFiles)
      ensures valid <==> (
                  && |lsFiles| == |vsFiles|
                  && (forall i :: 0 <= i < |lsFiles| ==> lsFiles[i].sequenceNumber == vsFiles[i].sequenceNumber)
                  && (forall i :: 0 < i < |lsFiles| ==>
                        lsFiles[i].sequenceNumber == (lsFiles[i - 1].sequenceNumber + 1) % 256))
    {
      hide Contiguous, Ahead;
      ContiguousMeans(lsFiles);
      valid := |lsFiles| == |vsFiles|;
      NoneContiguous(lsFiles[..0]);
      var nextSequenceNumber: int := -1;
      for x := 0 to |lsFiles|
        invariant nextSequenceNumber == if x == 0 then -1 else Ahead(lsFiles[0].sequenceNumber, x)
        invariant valid <==> (&& |lsFiles| == |vsFiles| && Contiguous(lsFiles[..x])
                              && forall i :: 0 <= i < x ==> lsFiles[i].sequenceNumber == vsFiles[i].sequenceNumber)
      {
        var lsSequenceNumber, vsSequenceNumber := lsFiles[x].sequenceNumber, vsFiles[x].sequenceNumber;
        valid := if !valid then false else lsSequenceNumber == vsSequenceNumber;
        ContiguousPrefix(lsFiles, x);
        AheadStep(lsFiles[0].sequenceNumber, x);
        if nextSequenceNumber == -1 {
          nextSequenceNumber := if lsSequenceNumber == 255 then 0 else lsSequenceNumber + 1;
        } else {
          valid := if !valid then false else lsSequenceNumber == nextSequenceNumber;
          nextSequenceNumber := if nextSequenceNumber == 255 then 0 else nextSequenceNumber + 1;
        }
      }
      assert lsFiles[..|lsFiles|] == lsFiles;
    }
  }

  lemma ParsedGrows(paths: seq<string>, i: nat)
    ensures Parsed([]) == Ok([])
    ensures i < |paths| && Parsed(paths[..i]).Ok? ==>
      Parsed(paths[..i + 1]) == ParsedNext(Parsed(paths[..i]).value, paths[i])
    ensures i < |paths| && Parsed(paths[..i]).Ok? && GetSequenceNumber(paths[i]).Err? ==>
      Parsed(paths) == Err(GetSequenceNumber(paths[i]).error)
  {
    hide GetSequenceNumber;
    if i < |paths| && Parsed(paths[..i]).Ok? {
      assert paths[..i + 1][..i] == paths[..i];
      if GetSequenceNumber(paths[i]).Err? {
        FirstError(paths, i);
      }
    }
  }

  lemma {:induction false} FirstError(paths: seq<string>, i: nat)
    requires i < |paths| && Parsed(paths[..i]).Ok? && GetSequenceNumber(paths[i]).Err?
    ensures Parsed(paths) == Err(GetSequenceNumber(paths[i]).error)
  {
    hide GetSequenceNumber;
    if i < |paths| - 1 {
      var front := paths[..|paths| - 1];
      assert front[..i] == paths[..i] && front[i] == paths[i];
      FirstError(front, i);
    }
  }

  lemma ContiguousMeans(files: seq<StreamFile>)
    ensures Contiguous(files) <==>
      forall i :: 0 < i < |files| ==> files[i].sequenceNumber == (files[i - 1].sequenceNumber + 1) % 256
  {
  }

  lemma NoneContiguous(files: seq<StreamFile>)
    requires files == []
    ensures Contiguous(files)
  {
  }

  /** One more file keeps a contiguous prefix contiguous when it has the number the run expects. */
  lemma ContiguousPrefix(files: seq<StreamFile>, x: nat)
    requires x < |files|
    ensures Contiguous(files[..x + 1]) <==>
      Contiguous(files[..x]) && files[x].sequenceNumber == Ahead(files[0].sequenceNumber, x)
  {
    hide Ahead;
    var before, now := files[..x], files[..x + 1];
    AheadStep(files[0].sequenceNumber, if x > 0 then x - 1 else 0);
    if Contiguous(now) {
      ContiguousNumber(now, x);
      assert before == now[..x];
    }
    if Contiguous(before) && x > 0 {
      ContiguousNumber(before, x - 1);
    }
  }

  /** Files keep their numbers through their names. */
  lemma ParsedNamed(manager: FileManager, files: seq<StreamFile>, extension: string)
    requires Extension(extension) && manager.Named(files, extension)
    ensures Parsed(Paths(files)) == Ok(files)
  {
    hide FilePath, GetSequenceNumber, Parsed;
    ParsedMeans(Paths(files));
    forall i | 0 <= i < |files| ensures GetSequenceNumber(files[i].filePath) == Ok(files[i].sequenceNumber) {
      FileNameRoundTrip(manager.dataPath, manager.tableName, files[i].sequenceNumber, extension);
    }
    assert Parsed(Paths(files)).value == files;
  }

  /** Adding files in pairs from lists that pair up, any number of times, leaves lists that validate. */
  method AddPairs(manager: FileManager, n: nat) returns (valid: bool)
    requires manager.Paired() && Contiguous(manager.lsFiles)
    requires manager.Named(manager.lsFiles, ".ls") && manager.Named(manager.vsFiles, ".vs")
    modifies manager
    ensures valid && manager.Paired() && |manager.lsFiles| == |old(manager.lsFiles)| + n
    ensures old(manager.lsFiles) <= manager.lsFiles && old(manager.vsFiles) <= manager.vsFiles
    ensures Distinct(manager.lsFiles) <==> |manager.lsFiles| <= 256
    ensures old(manager.lsFiles) == [] ==>
              forall i :: 0 <= i < n ==> manager.lsFiles[i].sequenceNumber == manager.vsFiles[i].sequenceNumber == i % 256
  {
    hide FilePath, Distinct;
    for i := 0 to n
      invariant manager.Paired() && Contiguous(manager.lsFiles)
      invariant manager.Named(manager.lsFiles, ".ls") && manager.Named(manager.vsFiles, ".vs")
      invariant |manager.lsFiles| == |old(manager.lsFiles)| + i
      invariant old(manager.lsFiles) <= manager.lsFiles && old(manager.vsFiles) <= manager.vsFiles
      invariant old(manager.lsFiles) == [] && i > 0 ==> manager.lsFiles[0].sequenceNumber == 0
    {
      var ls := manager.AddLsFile();
      var vs := manager.AddVsFile();
    }
    valid := manager.Validate();
    DistinctIffFits(manager.lsFiles);
    NumbersFromZero(manager.lsFiles);
  }

  /** A run that starts at 0 is numbered by position, modulo 256. */
  lemma NumbersFromZero(files: seq<StreamFile>)
    requires Contiguous(files)
    ensures files != [] && files[0].sequenceNumber == 0 ==>
              forall i :: 0 <= i < |files| ==> files[i].sequenceNumber == i % 256
  {
    forall i | 0 <= i < |files| ensures files[i].sequenceNumber == Ahead(files[0].sequenceNumber, i) {
      ContiguousNumber(files, i);
    }
  }

  predicate Recoverable(run: seq<StreamFile>) {
    |run| < 256 || (|run| == 256 && run[0].sequenceNumber == 0)
  }

  /**
   A restarted manager of the same table, given the paths of the old one's files in any order, ends with the old
   one's lists in creation order; with 256 files it does so exactly when the first is number 0.
   */
  method Restart(manager: FileManager, lsFound: seq<StreamFile>, vsFound: seq<StreamFile>)
    returns (restarted: FileManager)
    requires Contiguous(manager.lsFiles) && manager.Named(manager.lsFiles, ".ls")
    requires Contiguous(manager.vsFiles) && manager.Named(manager.vsFiles, ".vs")
    requires |manager.lsFiles| <= 256 && |manager.vsFiles| <= 256
    requires multiset(lsFound) == multiset(manager.lsFiles) && multiset(vsFound) == multiset(manager.vsFiles)
    ensures restarted.lsFiles == manager.lsFiles <==> Recoverable(manager.lsFiles)
    ensures restarted.vsFiles == manager.vsFiles <==> Recoverable(manager.vsFiles)
  {
    hide FilePath, Parsed, OrderedFrom, Contiguous;
    restarted := new FileManager(manager.dataPath, manager.tableName);
    FoundNamed(manager, manager.lsFiles, lsFound, ".ls");
    FoundNamed(manager, manager.vsFiles, vsFound, ".vs");
    var r := restarted.Initialize(Paths(lsFound), Paths(vsFound));
    assert [] + lsFound == lsFound && [] + vsFound == vsFound;
    RestartRecovers(manager.lsFiles, lsFound, restarted.lsFiles);
    RestartRecovers(manager.vsFiles, vsFound, restarted.vsFiles);
  }

  lemma FoundNamed(manager: FileManager, files: seq<StreamFile>, found: seq<StreamFile>, extension: string)
    requires Extension(extension) && manager.Named(files, extension) && multiset(found) == multiset(files)
    ensures Parsed(Paths(found)) == Ok(found) && |found| == |files|
  {
    hide FilePath, Parsed;
    assert |multiset(found)| == |found| && |multiset(files)| == |files|;
    forall i | 0 <= i < |found|
      ensures found[i].filePath == FilePath(manager.dataPath, manager.tableName, found[i].sequenceNumber, extension)
    {
      assert found[i] in multiset(files);
    }
    ParsedNamed(manager, found, extension);
  }
}
