/**
 * `LogReader`: hands out the stripped, non-blank lines of a log file in file
 * order and keeps two counters that live as long as the reader: physical
 * lines read, and blank lines skipped.
 *
 * The file is given as its physical lines. Whether it exists and is
 * non-empty (`validate_file`) is a flag, and a read that fails part-way is a
 * count of the lines delivered before the failure.
 */
module LogReading {
  import opened Wrappers
  import opened PyText

  /** The dictionary `get_stats` returns. */
  datatype ReadingStats = ReadingStats(totalLines: nat, skippedLines: nat, validLines: int)

  /** A line the reader skips: nothing is left after `strip()`. */
  predicate IsBlank(line: string) {
    Strip(line) == []
  }

  /** The lines handed out for the given physical lines: stripped, blanks dropped, in order. */
  function Emitted(lines: seq<string>): (out: seq<string>)
    ensures |out| <= |lines|
  {
    if lines == [] then []
    else (if IsBlank(lines[0]) then [] else [Strip(lines[0])]) + Emitted(lines[1..])
  }

  /** Every handed-out line is non-empty and already stripped. */
  lemma {:induction false} EmittedTrimmed(lines: seq<string>, i: nat)
    requires i < |Emitted(lines)|
    ensures Emitted(lines)[i] != [] && Strip(Emitted(lines)[i]) == Emitted(lines)[i]
  {
    var rest := Emitted(lines[1..]);
    if IsBlank(lines[0]) {
      assert Emitted(lines) == rest;
      EmittedTrimmed(lines[1..], i);
    } else if i == 0 {
      StripIdempotent(lines[0]);
    } else {
      assert Emitted(lines) == [Strip(lines[0])] + rest;
      assert Emitted(lines)[i] == rest[i - 1];
      EmittedTrimmed(lines[1..], i - 1);
    }
  }

  /** How many of the given physical lines are blank. */
  function BlankCount(lines: seq<string>): nat {
    if lines == [] then 0
    else (if IsBlank(lines[0]) then 1 else 0) + BlankCount(lines[1..])
  }

  /**
   * The physical lines a read gets through: none when the file fails
   * validation, all of them normally, and only the first `k` when the read
   * fails after `k` lines.
   */
  function LinesRead(file: seq<string>, fileValid: bool, failsAfter: Option<nat>): (read: seq<string>)
    ensures read <= file
    ensures !fileValid ==> read == []
    ensures fileValid && failsAfter.None? ==> read == file
  {
    if !fileValid then []
    else match failsAfter
      case None => file
      case Some(k) => if k < |file| then file[..k] else file
  }

  /** Handing out lines and skipping blanks commute with reading the file piece by piece. */
  lemma {:induction false} EmittedAppend(a: seq<string>, b: seq<string>)
    ensures Emitted(a + b) == Emitted(a) + Emitted(b)
    ensures BlankCount(a + b) == BlankCount(a) + BlankCount(b)
    decreases |a|
  {
    if a == [] {
      assert a + b == b;
    } else {
      assert (a + b)[1..] == a[1..] + b;
      EmittedAppend(a[1..], b);
    }
  }

  /** The next physical line is handed out stripped, or counted as skipped, before the rest. */
  lemma {:induction false} ReadStep(read: seq<string>, i: nat)
    requires i < |read|
    ensures Emitted(read[i..]) == (if IsBlank(read[i]) then [] else [Strip(read[i])]) + Emitted(read[i + 1..])
    ensures BlankCount(read[i..]) == (if IsBlank(read[i]) then 1 else 0) + BlankCount(read[i + 1..])
  {
    assert read[i..][0] == read[i];
    assert read[i..][1..] == read[i + 1..];
  }

  /** Every physical line is either handed out or counted as skipped. */
  lemma {:induction false} EmittedPlusBlank(lines: seq<string>)
    ensures |Emitted(lines)| + BlankCount(lines) == |lines|
  {
    if lines != [] {
      EmittedPlusBlank(lines[1..]);
    }
  }

  /**
   * A read cut short by a failure hands out a prefix of what the full read
   * hands out: nothing already handed out is lost or changed.
   */
  lemma TruncatedReadIsPrefix(file: seq<string>, k: nat)
    requires k <= |file|
    ensures Emitted(file[..k]) <= Emitted(file)
  {
    assert file == file[..k] + file[k..];
    EmittedAppend(file[..k], file[k..]);
  }

  /** The handed-out lines, in order, are exactly the stripped non-blank physical lines. */
  lemma {:induction false} EmittedOrder(lines: seq<string>, i: nat)
    requires i < |lines| && !IsBlank(lines[i])
    ensures var before := |Emitted(lines[..i])|;
      before < |Emitted(lines)| && Emitted(lines)[before] == Strip(lines[i])
  {
    assert lines == lines[..i] + [lines[i]] + lines[i + 1..];
    EmittedAppend(lines[..i] + [lines[i]], lines[i + 1..]);
    EmittedAppend(lines[..i], [lines[i]]);
    assert Emitted([lines[i]]) == [Strip(lines[i])] by {
      assert [lines[i]][1..] == [];
    }
  }

  class LogReader {
    var totalLines: nat
    var skippedLines: nat

    /** Skipped lines are among the lines read. */
    predicate Valid()
      reads this
    {
      skippedLines <= totalLines
    }

    constructor()
      ensures Valid()
      ensures totalLines == 0 && skippedLines == 0
    {
      totalLines := 0;
      skippedLines := 0;
    }

    /**
     * `read_lines`, drained: every physical line read adds one to
     * `totalLines`, every blank one also to `skippedLines`, and the others are
     * handed out stripped and in file order. Nothing happens when the file
     * fails validation. The counters are never reset, so a second call adds
     * onto the first.
     */
    method ReadLines(file: seq<string>, fileValid: bool, failsAfter: Option<nat>) returns (lines: seq<string>)
      requires Valid()
      modifies this
      ensures Valid()
      ensures lines == Emitted(LinesRead(file, fileValid, failsAfter))
      ensures totalLines == old(totalLines) + |LinesRead(file, fileValid, failsAfter)|
      ensures skippedLines == old(skippedLines) + BlankCount(LinesRead(file, fileValid, failsAfter))
    {
      lines := [];
      if !fileValid {
        return;
      }
      var read := LinesRead(file, fileValid, failsAfter);
      ghost var total0, skipped0 := totalLines, skippedLines;
      var i := 0;
      while i < |read|
        invariant 0 <= i <= |read|
        invariant totalLines == total0 + i
        invariant Emitted(read) == lines + Emitted(read[i..])
        invariant BlankCount(read) == skippedLines - skipped0 + BlankCount(read[i..])
        invariant Valid()
      {
        var line := read[i];
        ReadStep(read, i);
        totalLines := totalLines + 1;
        line := Strip(line);
        if line == [] {
          assert Emitted(read[i..]) == Emitted(read[i + 1..]);
          skippedLines := skippedLines + 1;
        } else {
          assert Emitted(read[i..]) == [line] + Emitted(read[i + 1..]);
          assert lines + Emitted(read[i..]) == lines + [line] + Emitted(read[i + 1..]);
          lines := lines + [line];
        }
        i := i + 1;
      }
      assert read[i..] == [];
      EmittedPlusBlank(read);
    }

    /** `get_stats`: the two counters and the lines that were not blank. */
    function GetStats(): (s: ReadingStats)
      reads this
      requires Valid()
      ensures s.totalLines == totalLines && s.skippedLines == skippedLines
      ensures 0 <= s.validLines <= s.totalLines
      ensures s.validLines + s.skippedLines == s.totalLines
    {
      ReadingStats(totalLines, skippedLines, totalLines - skippedLines)
    }
  }

  /**
   * A fresh reader that has been fully drained reports as valid lines exactly
   * the number of lines it handed out.
   */
  lemma {:induction false} DrainedValidLines(file: seq<string>, fileValid: bool, failsAfter: Option<nat>)
    ensures var read := LinesRead(file, fileValid, failsAfter);
      (|read| - BlankCount(read)) == |Emitted(read)|
  {
    EmittedPlusBlank(LinesRead(file, fileValid, failsAfter));
  }
}
