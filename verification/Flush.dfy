/** Cache flushing: the stepped loops of alt_dcache_flush() and alt_icache_flush(), for every line size
    that is a power of two. Addresses do not wrap. */
module Flush {
  import opened Arithmetic
  import opened Bits
  import opened Digits

  /** The line an address is in. */
  function Line(a: nat, line: nat): nat
    requires line > 0
  {
    a / line
  }

  predicate IsPower(line: nat, log: nat) {
    line == Pow(2, log) && line > 0
  }

  /** The addresses the loop visits: every `line` bytes from `start`, up to but not including `end`. */
  function Steps(start: nat, end: nat, line: nat): (n: nat)
    requires line > 0
    ensures start + n * line >= end && (n > 0 ==> start + (n - 1) * line < end)
  {
    if end <= start then 0
    else
      DivMod(end - start - 1, line);
      AddMultiples(line, (end - start - 1) / line, 1);
      (end - start - 1) / line + 1
  }

  /** The addresses flushed: those of the loop, and one more if the start is not on a line. */
  predicate Flushes(flushed: seq<nat>, start: nat, len: nat, line: nat)
    requires line > 0
  {
    && |flushed| == Steps(start, start + len, line) + (if start % line == 0 then 0 else 1)
    && forall k :: 0 <= k < |flushed| ==> flushed[k] == start + k * line
  }

  /** The loop both functions share. */
  method FlushRange(start: nat, len: nat, line: nat, ghost log: nat) returns (flushed: seq<nat>)
    requires IsPower(line, log)
    ensures Flushes(flushed, start, len, line)
  {
    flushed := [];
    var i, end := start, start + len;
    while i < end
      invariant i == start + |flushed| * line
      invariant |flushed| > 0 ==> start + (|flushed| - 1) * line < end
      invariant forall k :: 0 <= k < |flushed| ==> flushed[k] == start + k * line
      decreases end - i
    {
      AddMultiples(line, |flushed|, 1);
      flushed := flushed + [i];
      i := i + line;
    }
    StepsUnique(start, end, line, |flushed|);
    LowMask(start, log);
    if And(start, line - 1) != 0 {
      flushed := flushed + [i];
    }
  }

  lemma StepsUnique(start: nat, end: nat, line: nat, n: nat)
    requires line > 0 && start + n * line >= end && (n > 0 ==> start + (n - 1) * line < end)
    ensures n == Steps(start, end, line)
  {
    var m := Steps(start, end, line);
    if n < m {
      Monotone(n, m - 1, line);
    } else if m < n {
      Monotone(m, n - 1, line);
    }
  }

  /** alt_dcache_flush(): every line that overlaps the region is flushed, lines are flushed in order
      without repeats, and none is more than one past the end. */
  method DataFlush(start: nat, len: nat, line: nat, ghost log: nat) returns (flushed: seq<nat>)
    requires IsPower(line, log)
    ensures forall b :: start <= b < start + len ==> Hit(flushed, b, line)
    ensures forall k :: 0 <= k < |flushed| ==> Line(flushed[k], line) == Line(start, line) + k
    ensures forall k :: 0 <= k < |flushed| ==> Line(flushed[k], line) <= Line(start + len, line) + 1
  {
    flushed := FlushRange(start, len, line, log);
    InOrder(flushed, start, len, line);
    forall b | start <= b < start + len
      ensures Hit(flushed, b, line)
    {
      Covered(flushed, start, len, line, b);
    }
    forall k | 0 <= k < |flushed|
      ensures Line(flushed[k], line) <= Line(start + len, line) + 1
    {
      NotFarPast(flushed, start, len, line, k);
    }
  }

  lemma LineOfStep(start: nat, k: nat, line: nat)
    requires line > 0
    ensures (start + k * line) / line == start / line + k && (start + k * line) % line == start % line
  {
    DivMod(start, line);
    AddMultiples(line, start / line, k);
    QuotientRemainder(start + k * line, line, start / line + k, start % line);
  }

  /** A byte of the region is in one of the lines stepped to. */
  lemma ByteInSteps(start: nat, end: nat, line: nat, b: nat)
    requires line > 0 && start <= b < end
    ensures start / line <= b / line
    ensures b / line - start / line < Steps(start, end, line) + if start % line == 0 then 0 else 1
  {
    var n := Steps(start, end, line);
    QuotientMonotone(start, b, line);
    QuotientMonotone(b, start + n * line, line);
    LineOfStep(start, n, line);
    if start % line == 0 && b / line == start / line + n {
      DivMod(start, line);
      DivMod(b, line);
      AddMultiples(line, start / line, n);
    }
  }

  lemma InOrder(flushed: seq<nat>, start: nat, len: nat, line: nat)
    requires line > 0 && Flushes(flushed, start, len, line)
    ensures forall k :: 0 <= k < |flushed| ==> Line(flushed[k], line) == Line(start, line) + k
  {
    forall k | 0 <= k < |flushed|
      ensures Line(flushed[k], line) == Line(start, line) + k
    {
      LineOfStep(start, k, line);
    }
  }

  /** Some flushed address is in the line of `b`. */
  predicate Hit(flushed: seq<nat>, b: nat, line: nat)
    requires line > 0
  {
    exists k :: 0 <= k < |flushed| && Line(flushed[k], line) == Line(b, line)
  }

  lemma Covered(flushed: seq<nat>, start: nat, len: nat, line: nat, b: nat)
    requires line > 0 && Flushes(flushed, start, len, line) && start <= b < start + len
    ensures Hit(flushed, b, line)
  {
    InOrder(flushed, start, len, line);
    ByteInSteps(start, start + len, line, b);
    assert Line(flushed[b / line - start / line], line) == Line(b, line);
  }

  /** Only the last line flushed can be outside the region, and then it is the next one. */
  lemma NotFarPast(flushed: seq<nat>, start: nat, len: nat, line: nat, k: nat)
    requires line > 0 && Flushes(flushed, start, len, line) && k < |flushed|
    ensures Line(flushed[k], line) <= Line(start + len, line) + 1
  {
    LineOfStep(start, k, line);
    LastStep(start, start + len, line);
  }

  /** The last step of the loop is not past the end. */
  lemma LastStep(start: nat, end: nat, line: nat)
    requires line > 0 && start <= end
    ensures start / line + Steps(start, end, line) <= end / line + 1
  {
    var n := Steps(start, end, line);
    if n > 0 {
      LineOfStep(start, n - 1, line);
      QuotientMonotone(start + (n - 1) * line, end, line);
    } else {
      QuotientMonotone(start, end, line);
    }
  }

  /** The place a line has in the instruction cache. */
  function Index(a: nat, line: nat, lines: nat): nat
    requires line > 0 && lines > 0
  {
    a / line % lines
  }

  predicate IndexHit(flushed: seq<nat>, b: nat, line: nat, lines: nat)
    requires line > 0 && lines > 0
  {
    exists k :: 0 <= k < |flushed| && Index(flushed[k], line, lines) == Index(b, line, lines)
  }

  /** alt_icache_flush(): whatever the length, the place of every byte of the whole region is flushed,
      although no more than a cacheful of lines is. */
  method InstructionFlush(start: nat, len: nat, line: nat, size: nat, lines: nat, ghost log: nat) returns (flushed: seq<nat>)
    requires IsPower(line, log) && size == lines * line && lines > 0
    ensures |flushed| <= lines + 1
    ensures forall b :: start <= b < start + len ==> IndexHit(flushed, b, line, lines)
  {
    var capped := if len > size then size else len;
    flushed := FlushRange(start, capped, line, log);
    AtMostALoad(start, capped, line, lines);
    forall b | start <= b < start + len
      ensures IndexHit(flushed, b, line, lines)
    {
      var c := CachedTwin(start, capped, line, lines, b);
      Covered(flushed, start, capped, line, c);
      var k :| 0 <= k < |flushed| && Line(flushed[k], line) == Line(c, line);
      assert Index(flushed[k], line, lines) == Index(b, line, lines);
    }
  }

  lemma AtMostALoad(start: nat, len: nat, line: nat, lines: nat)
    requires line > 0 && len <= lines * line
    ensures Steps(start, start + len, line) <= lines
  {
    var n := Steps(start, start + len, line);
    if n > lines {
      Monotone(lines, n - 1, line);
    }
  }

  /** Every byte beyond the cap shares its place with one before it. */
  lemma CachedTwin(start: nat, capped: nat, line: nat, lines: nat, b: nat) returns (c: nat)
    requires line > 0 && lines > 0 && start <= b && (b < start + capped || capped == lines * line)
    ensures start <= c < start + capped && Index(c, line, lines) == Index(b, line, lines)
  {
    if b < start + capped {
      return b;
    }
    var size := lines * line;
    AtLeast(lines, line, 0);
    var turns := (b - start) / size;
    DivMod(b - start, size);
    c := start + (b - start) % size;
    assert b == c + turns * size;
    assert turns * size == (turns * lines) * line;
    LineOfStep(c, turns * lines, line);
    LineOfStep(c / line, turns, lines);
  }
}
