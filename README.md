# Unique number generator, modelled in Dafny

`UniqueNumberGenerator` hands out eight-digit numbers (10000000 to 99999999)
that it has never handed out before. It keeps every number it has used in a
set, mirrors that set in a text file (one decimal `int` per line) so that
uniqueness survives a restart, and finds a new number by rejection sampling:
draw a candidate with `random.nextInt(90000000) + 10000000`, redraw while the
candidate is already in the set, then add it, rewrite the whole file and
return it.

The model has four modules of its own plus a small `Wrappers` module (Option
and Result):

- `Decimal` (decimal.dfy): the text form of a Java `int`. `IntToString` is
  `String.valueOf(int)`; `ParseInt` is `Integer.parseInt(String)`, written as
  its digit loop (`Accumulate`, which gives up at the first non-digit or as
  soon as the magnitude passes the limit) and specified declaratively (an
  optional sign, at least one digit, a value in the 32-bit range). The two
  are tied by the round trip `ParseRendered`.
- `NumbersFile` (numbers_file.dfy): the file as a sequence of lines.
  `Render` gives the lines written for a list of numbers, `ParseLines` the
  result of reading lines until the first one `parseInt` rejects, `Mirrors`
  says a file holds each element of a set once in some order, and
  `SaveLoadRoundTrip` proves that loading a mirrored file gives back the set.
- `UniqueNumbers` (unique_number_generator.dfy): the class, with the fields
  `generatedNumbers` (the set), `numbersFile` (the path) and `fileLines` (the
  file's contents). `GenerateUniqueNumber` runs the rejection loop,
  `LoadGeneratedNumbers` the read loop, `SaveGeneratedNumbers` the write loop
  over the set, in whatever order the set is iterated (a nondeterministic
  choice of the next element). `Open` is the Java constructor: field
  initialisation (`Init`) followed by the load.
- `Clients` (clients.dfy): what a caller can prove from those contracts:
  distinct results over many calls, reopening a store after a save, and the
  two start-up scenarios (no file; a file that already holds a number such as 12345678).

The random source is an oracle: `GenerateUniqueNumber` takes the sequence of
values `nextInt(90000000)` would return (`draws`). The file system is a
parameter too: `Open` takes the file's lines and, optionally, the number of
lines after which reading raises an `IOException`; saves take the number of
lines that reach the file before writing raises one.

Two behaviours of the code are worth stating:

- A line that is not a valid `int` is not handled softly. `parseInt` throws
  `NumberFormatException`, which the `catch (IOException e)` at
  UniqueNumberGenerator.java:66 does not catch, so it escapes the
  constructor. `Open` returns `Failure(i)` with the index of that line.
- Loaded numbers are not range-checked, so the set can hold values outside
  the eight-digit range (`LoadAcceptsOutOfRange`).

## Model


| member | source | states |
|---|---|---|
| Decimal.NatToDigits | ca/wajahatali/commons/tools/random/generators/UniqueNumberGenerator.java:77 | the digits `String.valueOf` writes for a non-negative value: at least one digit, no leading zero, and they denote the value |
| Decimal.Accumulate | ca/wajahatali/commons/tools/random/generators/UniqueNumberGenerator.java:63 | the digit loop of `parseInt` succeeds exactly when the rest of the string is all digits with a value within the limit, and then yields that value; giving up early on overflow loses no valid input |
| Decimal.ParseInt | ca/wajahatali/commons/tools/random/generators/UniqueNumberGenerator.java:63 | `parseInt` accepts exactly an optional sign followed by at least one decimal digit whose value fits in an `int`, and returns that value; anything else (empty, sign alone, other characters, overflow) is the `NumberFormatException` |
| Decimal.ParseRendered | ca/wajahatali/commons/tools/random/generators/UniqueNumberGenerator.java:63-77 | parsing the string written for any `int` gives back that `int` |
| Decimal.RenderInjective | ca/wajahatali/commons/tools/random/generators/UniqueNumberGenerator.java:76-77 | distinct `int`s are written as distinct lines |
| Decimal.IntToString | ca/wajahatali/commons/tools/random/generators/UniqueNumberGenerator.java:77 | `String.valueOf(int)`: the string is digits with no `+` and a `-` exactly when the value is negative, has no leading zero, and denotes exactly the value; `ParseRendered` proves that parsing it gives the value back |
| NumbersFile.Render | ca/wajahatali/commons/tools/random/generators/UniqueNumberGenerator.java:76-79 | the lines the save loop writes: one line per number, in the same order, each line exactly the `String.valueOf` text of its number (and so denoting it); `LoadRendered` proves reading them gives the numbers back |
| NumbersFile.ReadLines | ca/wajahatali/commons/tools/random/generators/UniqueNumberGenerator.java:60-62 | the lines read are a prefix of the file, the whole file when no `IOException` occurs |
| NumbersFile.ParseLines | ca/wajahatali/commons/tools/random/generators/UniqueNumberGenerator.java:62-64 | reading either parses every line, or stops at the first line `parseInt` rejects, in both cases with the parsed value of each line before the stop |
| NumbersFile.StopsAtFirstBadLine | ca/wajahatali/commons/tools/random/generators/UniqueNumberGenerator.java:62-66 | when every line before index i parses and line i does not, the load fails at line i keeping exactly the values before it |
| NumbersFile.DuplicateLineCollapses | ca/wajahatali/commons/tools/random/generators/UniqueNumberGenerator.java:63-64 | a line repeating an earlier one adds no new element to the set |
| NumbersFile.LoadRendered | ca/wajahatali/commons/tools/random/generators/UniqueNumberGenerator.java:62-78 | reading the lines written for a list of `int`s gives back that list, with no bad line |
| NumbersFile.SaveLoadRoundTrip | ca/wajahatali/commons/tools/random/generators/UniqueNumberGenerator.java:59-79 | a file that mirrors a set has one line per element, no two alike, and loading it yields exactly that set |
| UniqueNumbers.Candidate | ca/wajahatali/commons/tools/random/generators/UniqueNumberGenerator.java:37 | a draw in `[0, 90000000)` plus 10000000 lies in `[10000000, 99999999]` (and in `int` range), and distinct draws give distinct candidates |
| UniqueNumbers.FirstFresh | ca/wajahatali/commons/tools/random/generators/UniqueNumberGenerator.java:36-38 | the accepted draw is the first whose candidate is not in the set; every earlier candidate is in the set; none is accepted only if every candidate is in the set |
| UniqueNumbers.FirstFreshIsFirst | ca/wajahatali/commons/tools/random/generators/UniqueNumberGenerator.java:36-38 | a loop that stops at the first candidate not in the set stops at the draw `FirstFresh` names |
| UniqueNumbers.UniqueNumberGenerator.Init | ca/wajahatali/commons/tools/random/generators/UniqueNumberGenerator.java:21-24 | a new store starts with an empty set and the given path |
| UniqueNumbers.UniqueNumberGenerator.Open | ca/wajahatali/commons/tools/random/generators/UniqueNumberGenerator.java:21-27 | construction fails exactly when a line read is not an `int`; otherwise the set is the values of the lines read before any `IOException`, and a missing file gives the empty set |
| UniqueNumbers.UniqueNumberGenerator.IsUnique | ca/wajahatali/commons/tools/random/generators/UniqueNumberGenerator.java:52-54 | a number is unique exactly when it is not in the set; the query changes nothing |
| UniqueNumbers.UniqueNumberGenerator.GenerateUniqueNumber | ca/wajahatali/commons/tools/random/generators/UniqueNumberGenerator.java:34-44 | returns the candidate of the first fresh draw, which lies in `[10000000, 99999999]` and was not in the set; the set grows by exactly that number; after a clean save the file mirrors the new set |
| UniqueNumbers.UniqueNumberGenerator.LoadGeneratedNumbers | ca/wajahatali/commons/tools/random/generators/UniqueNumberGenerator.java:59-69 | adds the value of every line read up to the first bad line to the set; reports the bad line (the escaping exception), or a caught read error, or a clean load |
| UniqueNumbers.UniqueNumberGenerator.SaveGeneratedNumbers | ca/wajahatali/commons/tools/random/generators/UniqueNumberGenerator.java:74-83 | overwrites the file: without a write error it holds each element of the set once, as its decimal string on a line of its own, in some order; after one it holds the lines written before the error, each a distinct element |
| Clients.GenerateSeveral | ca/wajahatali/commons/tools/random/generators/UniqueNumberGenerator.java:34-44 | numbers returned by successive calls on one store are pairwise distinct, in range, new, and all in the set afterwards, whether or not each call's save fails |
| Clients.ReopenAfterGenerate | ca/wajahatali/commons/tools/random/generators/UniqueNumberGenerator.java:26-41 | after a generated number is saved, a store opened on the same file starts with exactly the old store's set, the new number included |
| Clients.OpenTwice | ca/wajahatali/commons/tools/random/generators/UniqueNumberGenerator.java:21-27 | opening the same file twice gives two stores with the same set |
| Clients.MirrorsSingleton | ca/wajahatali/commons/tools/random/generators/UniqueNumberGenerator.java:76-79 | a file mirroring a one-element set is exactly that element's decimal string on one line |
| Clients.FirstNumberWithoutFile | ca/wajahatali/commons/tools/random/generators/UniqueNumberGenerator.java:34-44 | with no file, the first call returns a number in range and leaves a file of exactly that one line |
| Clients.PrepopulatedFile | ca/wajahatali/commons/tools/random/generators/UniqueNumberGenerator.java:34-44 | with a number such as 12345678 already in the file, that number is never returned, and after the save the file loads as exactly both numbers |
| Clients.LoadAcceptsOutOfRange | ca/wajahatali/commons/tools/random/generators/UniqueNumberGenerator.java:63-64 | loading does not check the eight-digit range: a line "5" puts 5 into the set |

## Left out

- The `random` field and the `java.util.Random` generator: draws are a parameter, with no claim about their distribution.
- GenerateUniqueNumber: the Java loop has no bound and would keep drawing; the model's draws are finite, so it returns `None` (changing nothing) when every draw it was given is rejected. Nothing is claimed about termination or the expected number of retries.
- ParseInt: accepts only the ASCII digits 0 to 9, whereas `Character.digit` inside `parseInt` also accepts the decimal digits of other scripts.
- The file system: `java.io` readers and writers, the path, and line terminators (`newLine` writes the platform separator, `readLine` accepts `\n`, `\r` and `\r\n`) are abstracted to a sequence of lines.
- SaveGeneratedNumbers: a write error is modelled as an `IOException` after a given number of lines reached the file (the file was truncated when opened); an error in opening the file, which would leave the old contents in place, and the effect of output buffering on what reaches the file are not modelled.
- The messages printed to standard output on a caught `IOException`, and the `main` method, which constructs a store on a fixed file name and prints one number.
- Concurrent calls and several stores sharing one file: the code does not guard against them.
