/** Prefetching the cache lines of a byte range. */
module Prefetch {
  import opened Arithmetic

  const MAX_PREFETCH_BYTES: nat := 2 * 1024 * 1024

  function CeilDiv(n: nat, d: nat): nat
    requires d > 0
  {
    (n + d - 1) / d
  }

  /** One prefetch every line size, from the first byte on; nothing for a null or empty range. */
  method PrefetchRange(address: nat, len: nat, detectedLine: nat, usizeMax: nat) returns (touched: seq<nat>)
    requires usizeMax > MAX_PREFETCH_BYTES
    ensures var n, line := Min(len, MAX_PREFETCH_BYTES), if detectedLine == 0 then 1 else detectedLine;
            && |touched| == (if address == 0 then 0 else CeilDiv(n, line))
            && forall k | 0 <= k < |touched| ::
                 touched[k] == address + k * line && address <= touched[k] < address + n
  {
    touched := [];
    if address == 0 || len == 0 {
      if len == 0 && detectedLine > 0 {
        DivModUnique(detectedLine - 1, detectedLine, 0, detectedLine - 1);
      }
      return;
    }
    var n := Min(len, MAX_PREFETCH_BYTES);
    var line := if detectedLine == 0 then 1 else detectedLine;
    var offset := 0;
    while offset < n
      invariant offset == (if |touched| * line <= usizeMax then |touched| * line else usizeMax)
      invariant |touched| > 0 ==> (|touched| - 1) * line < n
      invariant forall k | 0 <= k < |touched| ::
                  touched[k] == address + k * line && address <= touched[k] < address + n
      decreases usizeMax - offset
    {
      ghost var k := |touched|;
      Distribute(k, 1, line);
      touched := touched + [address + offset];
      offset := if offset + line <= usizeMax then offset + line else usizeMax;
    }
    CeilIsUnique(n, line, |touched|);
  }

  lemma CeilIsUnique(n: nat, d: nat, q: nat)
    requires d > 0 && (q > 0 ==> (q - 1) * d < n) && n <= q * d && (n > 0 ==> q > 0)
    ensures CeilDiv(n, d) == q
  {
    if q > 0 {
      Distribute(q - 1, 1, d);
      DivModUnique(n + d - 1, d, q, n + d - 1 - q * d);
    } else {
      DivModUnique(d - 1, d, 0, d - 1);
    }
  }

  // ----- which cache lines that is -------------------------------------------------------

  /** The cache lines that hold some byte of `[address, address + n)`. */
  ghost predicate Overlaps(lineNo: nat, address: nat, n: nat, line: nat)
    requires line > 0
  {
    exists b: nat :: address <= b < address + n && b / line == lineNo
  }

  /** The cache lines of the prefetched addresses. */
  ghost predicate Prefetched(lineNo: nat, address: nat, n: nat, line: nat)
    requires line > 0
  {
    exists k: nat :: k < CeilDiv(n, line) && (address + k * line) / line == lineNo
  }

  lemma LineOfStep(address: nat, k: nat, line: nat)
    requires line > 0
    ensures (address + k * line) / line == address / line + k
  {
    DivMod(address, line);
    Distribute(address / line, k, line);
    DivModUnique(address + k * line, line, address / line + k, address % line);
  }

  lemma PrefetchedLines(lineNo: nat, address: nat, n: nat, line: nat)
    requires line > 0
    ensures Prefetched(lineNo, address, n, line) <==>
            address / line <= lineNo < address / line + CeilDiv(n, line)
  {
    if Prefetched(lineNo, address, n, line) {
      var k: nat :| k < CeilDiv(n, line) && (address + k * line) / line == lineNo;
      LineOfStep(address, k, line);
    }
    if address / line <= lineNo < address / line + CeilDiv(n, line) {
      LineOfStep(address, lineNo - address / line, line);
    }
  }

  lemma DivMono(a: nat, b: nat, d: nat)
    requires d > 0 && a <= b
    ensures a / d <= b / d
  {
    DivMod(a, d);
    DivMod(b, d);
    if b / d < a / d {
      MulMono(b / d + 1, a / d, d);
      Distribute(b / d, 1, d);
    }
  }

  lemma OverlappedLines(lineNo: nat, address: nat, n: nat, line: nat)
    requires line > 0 && n > 0
    ensures Overlaps(lineNo, address, n, line) <==> address / line <= lineNo <= (address + n - 1) / line
  {
    var last := address + n - 1;
    if Overlaps(lineNo, address, n, line) {
      var b: nat :| address <= b < address + n && b / line == lineNo;
      DivMono(address, b, line);
      DivMono(b, last, line);
    }
    if address / line <= lineNo <= last / line {
      var b := if lineNo == address / line then address else lineNo * line;
      DivMod(address, line);
      DivMod(last, line);
      MulMono(lineNo, last / line, line);
      DivModUnique(lineNo * line, line, lineNo, 0);
      if lineNo > address / line {
        MulMono(address / line + 1, lineNo, line);
        Distribute(address / line, 1, line);
      }
      assert address <= b < address + n && b / line == lineNo;
    }
  }

  /** How many lines a range overlaps: as many as are prefetched, or one more. */
  lemma LastLine(address: nat, n: nat, line: nat)
    requires line > 0 && n > 0
    ensures var extra := if address % line + (n - 1) % line < line then 0 else 1;
            (address + n - 1) / line == address / line + CeilDiv(n, line) - 1 + extra
  {
    var q, r, p, s := address / line, address % line, (n - 1) / line, (n - 1) % line;
    DivMod(address, line);
    DivMod(n - 1, line);
    Distribute(p, 1, line);
    DivModUnique(n + line - 1, line, p + 1, s);
    Distribute(q, p, line);
    if r + s < line {
      DivModUnique(address + n - 1, line, q + p, r + s);
    } else {
      Distribute(q + p, 1, line);
      DivModUnique(address + n - 1, line, q + p + 1, r + s - line);
    }
  }

  /** Every prefetched line overlaps the range; and the range is covered, to its last line, exactly
      when the offsets of its first byte and of its length do not add up to another line.  The
      documentation's "all cache lines that overlap" therefore holds for every aligned start, and
      otherwise may miss the last line, but only that one. */
  lemma Coverage(address: nat, n: nat, line: nat)
    requires line > 0 && n > 0
    ensures forall lineNo: nat :: Prefetched(lineNo, address, n, line) ==> Overlaps(lineNo, address, n, line)
    ensures (forall lineNo: nat :: Overlaps(lineNo, address, n, line) ==> Prefetched(lineNo, address, n, line))
            <==> address % line + (n - 1) % line < line
    ensures forall lineNo: nat :: Overlaps(lineNo, address, n, line) && !Prefetched(lineNo, address, n, line) ==>
              lineNo == (address + n - 1) / line
  {
    LastLine(address, n, line);
    var last := (address + n - 1) / line;
    forall lineNo: nat
      ensures Overlaps(lineNo, address, n, line) <==> address / line <= lineNo <= last
      ensures Prefetched(lineNo, address, n, line) <==> address / line <= lineNo < address / line + CeilDiv(n, line)
    {
      OverlappedLines(lineNo, address, n, line);
      PrefetchedLines(lineNo, address, n, line);
    }
    DivMono(address, address + n - 1, line);
    assert Overlaps(last, address, n, line);
  }

  /** For instance, 64 bytes from address 1 reach into line 1, and only line 0 is prefetched. */
  lemma UnalignedStartMissesLine()
    ensures Overlaps(1, 1, 64, 64) && !Prefetched(1, 1, 64, 64)
  {
    PrefetchedLines(1, 1, 64, 64);
    OverlappedLines(1, 1, 64, 64);
  }
}
