/**
 * The unique number store: a set of every number handed out or loaded, a
 * numbers file that mirrors it, and rejection sampling over the eight-digit
 * numbers.
 */
module UniqueNumbers {
  import opened Wrappers
  import opened Decimal
  import opened NumbersFile

  /** `nextInt(DRAW_BOUND)` yields a value in `[0, DRAW_BOUND)`; adding `LOWEST` gives the candidate. */
  const DRAW_BOUND: int := 90000000
  const LOWEST: int := 10000000
  const HIGHEST: int := 99999999

  /** A draw of the random source that `nextInt(DRAW_BOUND)` can return. */
  predicate IsDraw(d: int) {
    0 <= d < DRAW_BOUND
  }

  /** The candidate number made from one draw. */
  function Candidate(d: int): (n: int)
    requires IsDraw(d)
    ensures LOWEST <= n <= HIGHEST && IsInt32(n)
    ensures n - LOWEST == d
  {
    d + LOWEST
  }

  /**
   * The index of the draw the rejection loop accepts: the first whose candidate
   * is not in `used`; `None` when every draw is rejected.
   */
  function FirstFresh(draws: seq<int>, used: set<int>): (r: Option<nat>)
    requires forall i :: 0 <= i < |draws| ==> IsDraw(draws[i])
    ensures r.Some? ==> r.value < |draws| && Candidate(draws[r.value]) !in used
    ensures r.Some? ==> forall j :: 0 <= j < r.value ==> Candidate(draws[j]) in used
    ensures r.None? ==> forall j :: 0 <= j < |draws| ==> Candidate(draws[j]) in used
  {
    if draws == [] then None
    else if Candidate(draws[0]) !in used then Some(0)
    else
      match FirstFresh(draws[1..], used)
      case None => None
      case Some(k) => Some(k + 1)
  }

  /** How loading the numbers file ended. `BadNumber` is the `NumberFormatException` that escapes. */
  datatype LoadOutcome = Loaded | ReadFailed | BadNumber(line: nat)

  /** The outcome of loading the lines delivered before an `IOException` after `readError` lines, if any. */
  function LoadOutcomeOf(lines: seq<string>, readError: Option<nat>): LoadOutcome
  {
    var p := ParseLines(lines);
    if p.badLine.Some? then BadNumber(p.badLine.value)
    else if readError.Some? then ReadFailed
    else Loaded
  }

  class UniqueNumberGenerator {
    /** Every number generated or loaded so far. */
    var generatedNumbers: set<int>
    /** The path of the numbers file. */
    var numbersFile: string
    /** The current contents of the numbers file, line by line. */
    var fileLines: seq<string>

    /** Every element of the set is a Java `int`. */
    ghost predicate Valid()
      reads this
    {
      forall x :: x in generatedNumbers ==> IsInt32(x)
    }

    /** The field initialisation of the Java constructor: an empty set, the path, the file as it stands. */
    constructor Init(filePath: string, disk: seq<string>)
      ensures Valid()
      ensures generatedNumbers == {} && numbersFile == filePath && fileLines == disk
    {
      generatedNumbers := {};
      numbersFile := filePath;
      fileLines := disk;
    }

    /**
     * The whole Java constructor: initialise, then load the file. A line that
     * is not an `int` makes the construction fail; a read error is swallowed
     * and the numbers read before it are kept.
     */
    static method Open(filePath: string, disk: seq<string>, readError: Option<nat>)
      returns (r: Result<UniqueNumberGenerator, nat>)
      ensures r.Failure? <==> ParseLines(ReadLines(disk, readError)).badLine.Some?
      ensures r.Failure? ==> r.error == ParseLines(ReadLines(disk, readError)).badLine.value
      ensures r.Success? ==> fresh(r.value) && r.value.Valid()
      ensures r.Success? ==> r.value.generatedNumbers == Elements(ParseLines(ReadLines(disk, readError)).values)
      ensures r.Success? ==> r.value.numbersFile == filePath && r.value.fileLines == disk
    {
      var g := new UniqueNumberGenerator.Init(filePath, disk);
      var outcome := g.LoadGeneratedNumbers(readError);
      if outcome.BadNumber? {
        r := Failure(outcome.line);
      } else {
        r := Success(g);
      }
    }

    /** Whether `number` has not been generated or loaded yet. */
    function IsUnique(number: int): (unique: bool)
      reads this
      ensures unique <==> number !in generatedNumbers
    {
      number !in generatedNumbers
    }

    /**
     * Draws candidates until one is not in the set, adds it, rewrites the file
     * and returns it. `draws` are the successive values of `nextInt(DRAW_BOUND)`;
     * `None` only when they run out with every candidate rejected, and then
     * nothing changes. `writeError` is passed on to the save.
     */
    method GenerateUniqueNumber(draws: seq<int>, writeError: Option<nat>) returns (r: Option<int>)
      requires Valid()
      requires forall i :: 0 <= i < |draws| ==> IsDraw(draws[i])
      modifies this
      ensures Valid() && numbersFile == old(numbersFile)
      ensures r == match FirstFresh(draws, old(generatedNumbers))
                   case None => None
                   case Some(k) => Some(Candidate(draws[k]))
      ensures r.Some? ==> LOWEST <= r.value <= HIGHEST
      ensures r.Some? ==> r.value !in old(generatedNumbers)
      ensures r.Some? ==> generatedNumbers == old(generatedNumbers) + {r.value}
      ensures r.Some? && writeError.None? ==> Mirrors(fileLines, generatedNumbers)
      ensures r.Some? && writeError.Some? ==>
        PartlyMirrors(fileLines, generatedNumbers) && |fileLines| == Min(writeError.value, |generatedNumbers|)
      ensures r.None? ==> generatedNumbers == old(generatedNumbers) && fileLines == old(fileLines)
    {
      var i := 0;
      while i < |draws| && !IsUnique(Candidate(draws[i]))
        invariant 0 <= i <= |draws|
        invariant forall j :: 0 <= j < i ==> Candidate(draws[j]) in generatedNumbers
      {
        i := i + 1;
      }
      FirstFreshIsFirst(draws, generatedNumbers, i);
      if i == |draws| {
        return None;
      }
      var number := Candidate(draws[i]);
      generatedNumbers := generatedNumbers + {number};
      var _ := SaveGeneratedNumbers(writeError);
      r := Some(number);
    }

    /**
     * Reads the lines of the file and adds the value of each to the set,
     * stopping at the first line that is not an `int` (the escaping
     * `NumberFormatException`). `readError` is the number of lines delivered
     * before an `IOException`, which is caught.
     */
    method LoadGeneratedNumbers(readError: Option<nat>) returns (outcome: LoadOutcome)
      requires Valid()
      modifies this`generatedNumbers
      ensures Valid()
      ensures outcome == LoadOutcomeOf(ReadLines(fileLines, readError), readError)
      ensures generatedNumbers == old(generatedNumbers) + Elements(ParseLines(ReadLines(fileLines, readError)).values)
    {
      var lines := ReadLines(fileLines, readError);
      var i := 0;
      while i < |lines|
        invariant 0 <= i <= |lines|
        invariant ParseLines(lines[..i]).badLine.None?
        invariant generatedNumbers == old(generatedNumbers) + Elements(ParseLines(lines[..i]).values)
        invariant Valid()
      {
        match ParseInt(lines[i]) {
          case None =>
            StopsAtFirstBadLine(lines, i);
            return BadNumber(i);
          case Some(number) =>
            LoadStep(lines, i, number);
            generatedNumbers := generatedNumbers + {number};
            i := i + 1;
        }
      }
      assert lines[..i] == lines;
      outcome := if readError.Some? then ReadFailed else Loaded;
    }

    /**
     * Overwrites the file with one line per element of the set, in the set's
     * iteration order. `writeError` is the number of lines that reach the file
     * before an `IOException`, if one occurs; it is caught and the file then
     * holds only those lines.
     */
    method SaveGeneratedNumbers(writeError: Option<nat>) returns (ok: bool)
      modifies this`fileLines
      ensures ok <==> writeError.None?
      ensures ok ==> Mirrors(fileLines, generatedNumbers)
      ensures !ok ==> PartlyMirrors(fileLines, generatedNumbers)
      ensures !ok ==> |fileLines| == Min(writeError.value, |generatedNumbers|)
    {
      var rest := generatedNumbers;
      var written: seq<string> := [];
      ghost var order: seq<int> := [];
      var interrupted := false;
      while |rest| > 0
        invariant rest <= generatedNumbers
        invariant Distinct(order) && Elements(order) == generatedNumbers - rest
        invariant written == Render(order)
        invariant writeError.Some? ==> |written| <= writeError.value
        invariant interrupted ==> writeError == Some(|written|)
        decreases rest
      {
        if writeError == Some(|written|) {
          interrupted := true;
          break;
        }
        HasElement(rest);
        var number :| number in rest;
        AppendFresh(order, number);
        RenderAppend(order, number);
        written := written + [IntToString(number)];
        order := order + [number];
        rest := rest - {number};
      }
      SavedLines(order, generatedNumbers, rest, writeError, interrupted);
      fileLines := written;
      ok := writeError.None?;
    }
  }

  function Min(a: int, b: int): int {
    if a < b then a else b
  }

  /** A non-empty set has an element, so the iteration over the set can always take the next one. */
  lemma HasElement(s: set<int>)
    requires |s| > 0
    ensures exists x :: x in s
  {
    if forall x :: x !in s {
      assert false;
    }
  }

  lemma SubsetCardinality(a: set<int>, b: set<int>)
    requires a <= b
    ensures |a| <= |b|
  {
    assert b == a + (b - a);
  }

  /** What the write loop leaves in the file, whether it ran to the end or was interrupted. */
  lemma SavedLines(order: seq<int>, s: set<int>, rest: set<int>, writeError: Option<nat>, interrupted: bool)
    requires rest <= s && Distinct(order) && Elements(order) == s - rest
    requires writeError.Some? ==> |order| <= writeError.value
    requires interrupted ==> writeError == Some(|order|)
    requires !interrupted ==> rest == {}
    ensures writeError.None? ==> Mirrors(Render(order), s)
    ensures writeError.Some? ==> PartlyMirrors(Render(order), s)
    ensures writeError.Some? ==> |order| == Min(writeError.value, |s|)
  {
    DistinctCardinality(order);
    SubsetCardinality(s - rest, s);
    if !interrupted {
      assert s - rest == s;
      assert IsEnumeration(order, s);
    }
    assert Elements(order) <= s;
  }

  /** Writing one more number appends its line. */
  lemma RenderAppend(xs: seq<int>, x: int)
    ensures Render(xs + [x]) == Render(xs) + [IntToString(x)]
  {
  }

  /** Appending a value not yet listed keeps a sequence distinct and adds just that value to its elements. */
  lemma AppendFresh(xs: seq<int>, x: int)
    requires Distinct(xs) && x !in Elements(xs)
    ensures Distinct(xs + [x])
    ensures Elements(xs + [x]) == Elements(xs) + {x}
  {
    ElementsAppend(xs, x);
    assert forall j :: 0 <= j < |xs| ==> xs[j] in Elements(xs);
  }

  /** The rejection loop stops at the draw `FirstFresh` names. */
  lemma FirstFreshIsFirst(draws: seq<int>, used: set<int>, i: nat)
    requires forall j :: 0 <= j < |draws| ==> IsDraw(draws[j])
    requires i <= |draws|
    requires forall j :: 0 <= j < i ==> Candidate(draws[j]) in used
    requires i < |draws| ==> Candidate(draws[i]) !in used
    ensures FirstFresh(draws, used) == if i == |draws| then None else Some(i)
  {
    var r := FirstFresh(draws, used);
    if r.Some? {
      assert r.value >= i;
    }
  }
}
