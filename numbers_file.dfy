/**
 * The numbers file: one decimal `int` per line. Saving writes the set in its
 * (unspecified) iteration order; loading parses every line and stops at the
 * first line `Integer.parseInt` rejects.
 */
module NumbersFile {
  import opened Wrappers
  import opened Decimal

  /** The lines written for the numbers `xs`, in that order. */
  function Render(xs: seq<int>): (lines: seq<string>)
    ensures |lines| == |xs|
    ensures forall i {:trigger lines[i]} :: 0 <= i < |xs| ==> lines[i] == IntToString(xs[i])
    ensures forall i {:trigger lines[i]} :: 0 <= i < |xs| ==> WellFormed(lines[i]) && SignedValue(lines[i]) == xs[i]
  {
    seq(|xs|, i requires 0 <= i < |xs| => IntToString(xs[i]))
  }

  function Elements(xs: seq<int>): set<int>
  {
    set x | x in xs
  }

  predicate Distinct<T(==)>(xs: seq<T>) {
    forall i, j :: 0 <= i < j < |xs| ==> xs[i] != xs[j]
  }

  /** `xs` lists every element of `s` exactly once: one iteration order of the set. */
  ghost predicate IsEnumeration(xs: seq<int>, s: set<int>) {
    Distinct(xs) && Elements(xs) == s
  }

  /** The file holds each element of `s` once, as its decimal string on a line of its own, in some order. */
  ghost predicate Mirrors(lines: seq<string>, s: set<int>) {
    exists xs :: IsEnumeration(xs, s) && lines == Render(xs)
  }

  /** The file holds some of the elements of `s`, each at most once: what an interrupted save leaves. */
  ghost predicate PartlyMirrors(lines: seq<string>, s: set<int>) {
    exists xs :: Distinct(xs) && Elements(xs) <= s && lines == Render(xs)
  }

  /** What reading the file yields: the values of the lines before the first bad one, and that line's index if any. */
  datatype Parse = Parse(values: seq<int>, badLine: Option<nat>)

  /** The lines `readLine` delivers from `disk` when an `IOException` is raised after `readError` lines, if ever. */
  function ReadLines(disk: seq<string>, readError: Option<nat>): (lines: seq<string>)
    ensures lines <= disk
    ensures readError.None? ==> lines == disk
  {
    if readError.Some? && readError.value < |disk| then disk[..readError.value] else disk
  }

  /**
   * Parsing the lines one by one with `Integer.parseInt`: either every line
   * parses, or parsing stops at the first line that does not, with the values
   * of the lines before it.
   */
  function ParseLines(lines: seq<string>): (r: Parse)
    ensures r.badLine.None? ==> |r.values| == |lines|
    ensures r.badLine.Some? ==>
      r.badLine.value < |lines| && |r.values| == r.badLine.value && ParseInt(lines[r.badLine.value]).None?
    ensures |r.values| <= |lines|
    ensures forall i {:trigger r.values[i]} :: 0 <= i < |r.values| ==> ParseInt(lines[i]) == Some(r.values[i])
  {
    if lines == [] then Parse([], None)
    else
      var init := lines[..|lines| - 1];
      var p := ParseLines(init);
      if p.badLine.Some? then p
      else
        match ParseInt(lines[|lines| - 1])
        case None => Parse(p.values, Some(|lines| - 1))
        case Some(v) => Parse(p.values + [v], None)
  }

  /** A distinct sequence has as many elements as its set of elements. */
  lemma {:induction false} DistinctCardinality(xs: seq<int>)
    requires Distinct(xs)
    ensures |Elements(xs)| == |xs|
  {
    if xs != [] {
      var init := xs[..|xs| - 1];
      var last := xs[|xs| - 1];
      assert Distinct(init);
      DistinctCardinality(init);
      assert Elements(xs) == Elements(init) + {last};
      assert forall i :: 0 <= i < |init| ==> init[i] != last;
      assert last !in Elements(init);
    }
  }

  /** Loading the lines written for `xs` gives back `xs`, in order, with no bad line. */
  lemma {:induction false} LoadRendered(xs: seq<int>)
    requires forall i :: 0 <= i < |xs| ==> IsInt32(xs[i])
    ensures ParseLines(Render(xs)) == Parse(xs, None)
  {
    if xs != [] {
      var init := xs[..|xs| - 1];
      assert Render(xs)[..|xs| - 1] == Render(init);
      LoadRendered(init);
      ParseRendered(xs[|xs| - 1]);
      assert init + [xs[|xs| - 1]] == xs;
    }
  }

  /**
   * Save then load: a file that mirrors a set of `int`s has one line per
   * element, no two lines alike, and loading it gives back exactly that set.
   */
  lemma SaveLoadRoundTrip(lines: seq<string>, s: set<int>)
    requires Mirrors(lines, s)
    requires forall x :: x in s ==> IsInt32(x)
    ensures ParseLines(lines).badLine.None?
    ensures Elements(ParseLines(lines).values) == s
    ensures |lines| == |s| && Distinct(lines)
  {
    var xs :| IsEnumeration(xs, s) && lines == Render(xs);
    assert forall i :: 0 <= i < |xs| ==> xs[i] in Elements(xs);
    LoadRendered(xs);
    DistinctCardinality(xs);
    forall i, j | 0 <= i < j < |lines|
      ensures lines[i] != lines[j]
    {
      RenderInjective(xs[i], xs[j]);
    }
  }

  /**
   * Parsing stops at the first line `parseInt` rejects: if the lines before
   * index `i` all parse and line `i` does not, the whole file fails at `i`
   * with the values of those lines.
   */
  lemma {:induction false} StopsAtFirstBadLine(lines: seq<string>, i: nat)
    requires i < |lines|
    requires ParseLines(lines[..i]).badLine.None?
    requires ParseInt(lines[i]).None?
    ensures ParseLines(lines) == Parse(ParseLines(lines[..i]).values, Some(i))
    decreases |lines|
  {
    var init := lines[..|lines| - 1];
    if i < |lines| - 1 {
      assert init[..i] == lines[..i];
      StopsAtFirstBadLine(init, i);
    } else {
      assert init == lines[..i];
    }
  }

  lemma ElementsAppend(xs: seq<int>, x: int)
    ensures Elements(xs + [x]) == Elements(xs) + {x}
  {
    assert forall y :: y in xs + [x] <==> y in xs || y == x;
  }

  lemma ElementsAppendMember(xs: seq<int>, k: nat)
    requires k < |xs|
    ensures Elements(xs + [xs[k]]) == Elements(xs)
  {
    ElementsAppend(xs, xs[k]);
    assert xs[k] in Elements(xs);
  }

  /** Reading one more line that parses appends its value. */
  lemma ParseOneMore(lines: seq<string>, line: string, v: int)
    requires ParseLines(lines).badLine.None? && ParseInt(line) == Some(v)
    ensures ParseLines(lines + [line]) == Parse(ParseLines(lines).values + [v], None)
  {
    assert (lines + [line])[..|lines|] == lines;
  }

  /** The read loop's step: one more line that parses adds its value to what was loaded. */
  lemma LoadStep(lines: seq<string>, i: nat, v: int)
    requires i < |lines| && ParseLines(lines[..i]).badLine.None? && ParseInt(lines[i]) == Some(v)
    ensures ParseLines(lines[..i + 1]).badLine.None?
    ensures Elements(ParseLines(lines[..i + 1]).values) == Elements(ParseLines(lines[..i]).values) + {v}
  {
    assert lines[..i + 1] == lines[..i] + [lines[i]];
    ParseOneMore(lines[..i], lines[i], v);
    ElementsAppend(ParseLines(lines[..i]).values, v);
  }

  /** A line that repeats an earlier one adds no new value: duplicate lines collapse to one element. */
  lemma DuplicateLineCollapses(lines: seq<string>, i: nat)
    requires i < |lines| && ParseLines(lines).badLine.None?
    ensures ParseLines(lines + [lines[i]]).badLine.None?
    ensures Elements(ParseLines(lines + [lines[i]]).values) == Elements(ParseLines(lines).values)
  {
    var vs := ParseLines(lines).values;
    assert ParseInt(lines[i]) == Some(vs[i]);
    ParseOneMore(lines, lines[i], vs[i]);
    ElementsAppendMember(vs, i);
  }
}
