/**
 * What callers can rely on across several calls and across restarts, proved
 * from the contracts of the store alone.
 */
module Clients {
  import opened Wrappers
  import opened Decimal
  import opened NumbersFile
  import opened UniqueNumbers

  /** `numbers` are pairwise distinct eight-digit numbers, none of them in `used`. */
  ghost predicate NewNumbers(numbers: seq<int>, used: set<int>) {
    && Distinct(numbers)
    && (forall k :: 0 <= k < |numbers| ==> LOWEST <= numbers[k] <= HIGHEST)
    && (forall k :: 0 <= k < |numbers| ==> numbers[k] !in used)
  }

  /**
   * Calls `GenerateUniqueNumber` once per round of draws, with that round's
   * save succeeding or failing as `writeErrors` says, collecting the numbers
   * returned. Whether or not the saves fail: all of them are distinct, none was used before, each is
   * in the eight-digit range and each is in the set afterwards.
   */
  method GenerateSeveral(g: UniqueNumberGenerator, rounds: seq<seq<int>>, writeErrors: seq<Option<nat>>)
    returns (numbers: seq<int>)
    requires g.Valid()
    requires forall r, i :: 0 <= r < |rounds| && 0 <= i < |rounds[r]| ==> IsDraw(rounds[r][i])
    requires |writeErrors| == |rounds|
    modifies g
    ensures g.Valid()
    ensures NewNumbers(numbers, old(g.generatedNumbers))
    ensures g.generatedNumbers == old(g.generatedNumbers) + Elements(numbers)
  {
    numbers := [];
    var r := 0;
    while r < |rounds|
      invariant 0 <= r <= |rounds|
      invariant g.Valid()
      invariant NewNumbers(numbers, old(g.generatedNumbers))
      invariant g.generatedNumbers == old(g.generatedNumbers) + Elements(numbers)
    {
      var result := g.GenerateUniqueNumber(rounds[r], writeErrors[r]);
      if result.Some? {
        RecordNew(numbers, old(g.generatedNumbers), result.value);
        numbers := numbers + [result.value];
      }
      r := r + 1;
    }
  }

  /** A new eight-digit number extends a run of new numbers. */
  lemma RecordNew(numbers: seq<int>, used: set<int>, v: int)
    requires NewNumbers(numbers, used)
    requires LOWEST <= v <= HIGHEST && v !in used + Elements(numbers)
    ensures NewNumbers(numbers + [v], used)
    ensures used + Elements(numbers) + {v} == used + Elements(numbers + [v])
  {
    AppendFresh(numbers, v);
  }

  /**
   * After a number is generated and saved, a new store opened on the same file
   * starts with exactly the set the old one holds, new number included.
   */
  method ReopenAfterGenerate(g: UniqueNumberGenerator, draws: seq<int>)
    returns (number: Option<int>, reopened: Result<UniqueNumberGenerator, nat>)
    requires g.Valid()
    requires forall i :: 0 <= i < |draws| ==> IsDraw(draws[i])
    modifies g
    ensures number.Some? ==> reopened.Success?
    ensures number.Some? ==> reopened.value.generatedNumbers == g.generatedNumbers
    ensures number.Some? ==> number.value in reopened.value.generatedNumbers
  {
    number := g.GenerateUniqueNumber(draws, None);
    if number.Some? {
      SaveLoadRoundTrip(g.fileLines, g.generatedNumbers);
    }
    reopened := UniqueNumberGenerator.Open(g.numbersFile, g.fileLines, None);
  }

  /** Opening the same file twice gives two stores with the same set. */
  method OpenTwice(filePath: string, disk: seq<string>)
    returns (first: Result<UniqueNumberGenerator, nat>, second: Result<UniqueNumberGenerator, nat>)
    ensures first.Success? <==> second.Success?
    ensures first.Success? ==> first.value != second.value
    ensures first.Success? ==> first.value.generatedNumbers == second.value.generatedNumbers
  {
    first := UniqueNumberGenerator.Open(filePath, disk, None);
    second := UniqueNumberGenerator.Open(filePath, disk, None);
  }

  /** A file that mirrors a one-element set is exactly the one line of that element. */
  lemma MirrorsSingleton(lines: seq<string>, n: int)
    requires Mirrors(lines, {n})
    ensures lines == [IntToString(n)]
  {
    var xs :| IsEnumeration(xs, {n}) && lines == Render(xs);
    DistinctCardinality(xs);
    assert xs[0] in Elements(xs);
    assert xs == [n];
  }

  /**
   * With no file, the first number generated lies in range and, once saved,
   * the file is that one number on one line.
   */
  method FirstNumberWithoutFile(filePath: string, draws: seq<int>) returns (number: Option<int>, lines: seq<string>)
    requires forall i :: 0 <= i < |draws| ==> IsDraw(draws[i])
    requires |draws| > 0
    ensures number.Some? && LOWEST <= number.value <= HIGHEST
    ensures lines == [IntToString(number.value)]
  {
    var store := UniqueNumberGenerator.Open(filePath, [], Some(0));
    var g := store.value;
    number := g.GenerateUniqueNumber(draws, None);
    lines := g.fileLines;
    MirrorsSingleton(lines, number.value);
  }

  /**
   * With a number already in the file (12345678, say), that number is never
   * returned, and after a successful save the file loads as both numbers.
   */
  method PrepopulatedFile(filePath: string, existing: int, draws: seq<int>) returns (number: Option<int>, lines: seq<string>)
    requires IsInt32(existing)
    requires forall i :: 0 <= i < |draws| ==> IsDraw(draws[i])
    ensures number.Some? ==> number.value != existing
    ensures number.Some? ==> ParseLines(lines).badLine.None?
    ensures number.Some? ==> Elements(ParseLines(lines).values) == {existing, number.value}
  {
    var disk := Render([existing]);
    LoadRendered([existing]);
    assert Elements([existing]) == {existing};
    var store := UniqueNumberGenerator.Open(filePath, disk, None);
    var g := store.value;
    assert g.generatedNumbers == {existing};
    number := g.GenerateUniqueNumber(draws, None);
    lines := g.fileLines;
    if number.Some? {
      SaveLoadRoundTrip(lines, g.generatedNumbers);
    }
  }

  /**
   * Loading does not check the eight-digit range: a file holding "5" puts 5
   * into the set.
   */
  lemma LoadAcceptsOutOfRange()
    ensures ParseLines(["5"]) == Parse([5], None)
    ensures !(LOWEST <= 5 <= HIGHEST)
  {
    ParseRendered(5);
    assert IntToString(5) == "5";
    LoadRendered([5]);
    assert Render([5]) == ["5"];
  }
}
