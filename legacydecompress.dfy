/**
 * The earlier decompressor (src/decompress.rs): walks the table, appends each
 * file's plain bytes to one growing body, and rewrites every file entry as a
 * decompressed entry whose physical start is the running offset `current`.
 * The first file, which covers the ROM head, contributes only its bytes past
 * the head while `current` still counts the head. The body is finally resized
 * to 64 MiB less the head.
 *
 * `Run` states the loop one entry at a time (`Step`); `Decompress` is proved
 * to compute it, and the lemmas state what it means.
 */
module LegacyDecompress {
  import opened Common
  import opened Dma
  import Yaz0
  import N64Rom
  import LegacyRom

  /** `ROM_CAPACITY`: 64 MiB. */
  const ROM_CAPACITY: nat := 1024 * 1024 * 64

  const HEAD: nat := N64Rom.HEAD_SIZE

  /** The panics of the loop: u32 underflow or overflow, and the unwrapped Yaz0 results. */
  datatype Panic =
    | StartBeforeHead(phys: Range)
    | LengthBeforeHead(phys: Range)
    | Yaz0Failure(yaz0: Yaz0.Error)
    | OffsetOverflow

  datatype Error = RomError(rom: LegacyRom.Error) | Panicked(panic: Panic)

  /** The loop state: running physical offset, rewritten entries, output body. */
  datatype Progress = Progress(current: u32, entries: seq<Entry>, result: seq<u8>)

  /** What `decompress` returns: the body, the rewritten entries and the table offset kept from the input. */
  datatype Output = Output(body: seq<u8>, entries: seq<Entry>, offset: nat)

  /** A decompressed file that starts inside the head: only its bytes past the head are copied. */
  predicate CoversHead(e: Entry)
    requires e.RangeFits()
  {
    IsFile(e) && e.Kind() == Decompressed && e.physStart < HEAD
  }

  /**
   * `seek` then `read_exact` on a cursor over the body: length bytes from
   * start, or UnexpectedEof when fewer remain. Reading nothing succeeds even
   * with the cursor past the end.
   */
  function ReadExact(data: seq<u8>, start: nat, length: nat): (r: Result<seq<u8>, Error>)
    ensures r.Ok? <==> length == 0 || start + length <= |data|
    ensures r.Ok? ==> |r.value| == length
    ensures r.Ok? && start + length <= |data| ==> r.value == data[start..start + length]
    ensures r.Err? ==> r.error == RomError(LegacyRom.IOError(UnexpectedEof))
  {
    if length == 0 then Ok([])
    else if start + length <= |data| then Ok(data[start..start + length])
    else Err(RomError(LegacyRom.IOError(UnexpectedEof)))
  }

  /** What a cursor seeked to start offers the Yaz0 reader: the rest of the body, or nothing past its end. */
  function From(data: seq<u8>, start: nat): seq<u8> {
    if start <= |data| then data[start..] else []
  }

  /**
   * The bytes a file contributes to the body (leaving the offset check
   * aside): a compressed file is decoded from its physical start less the
   * head; a decompressed one is read from there, or from 0 with the head's
   * length taken off when it starts inside the head.
   */
  function Piece(data: seq<u8>, decode: Yaz0.Decoder, e: Entry): (r: Result<seq<u8>, Error>)
    requires e.RangeFits() && IsFile(e) && e.Validate().Ok?
    ensures r.Ok? && e.Kind() == Decompressed ==>
      |r.value| + (if CoversHead(e) then HEAD else 0) == e.Virt().Len()
  {
    var phys := e.RealRange().value;
    if e.Kind() == Compressed then
      if phys.start < HEAD then Err(Panicked(StartBeforeHead(phys)))
      else
        match decode(From(data, phys.start - HEAD))
        case Err(y) => Err(Panicked(Yaz0Failure(y)))
        case Ok(bytes) => Ok(bytes)
    else if phys.start < HEAD then
      if phys.Len() < HEAD then Err(Panicked(LengthBeforeHead(phys)))
      else ReadExact(data, 0, phys.Len() - HEAD)
    else ReadExact(data, phys.start - HEAD, phys.Len())
  }

  /**
   * One pass of the loop. Validation errors propagate. A file is recorded at
   * the current offset first; the offset then grows by the head (for a file
   * covering it) and by the file's bytes, each u32 addition panicking on
   * overflow. Other entries are copied.
   */
  function Step(data: seq<u8>, decode: Yaz0.Decoder, st: Progress, e: Entry): (r: Result<Progress, Error>)
    requires e.RangeFits()
  {
    match e.Validate()
    case Err(d) => Err(RomError(LegacyRom.DMAError(d)))
    case Ok(_) =>
      if !IsFile(e) then Ok(st.(entries := st.entries + [e]))
      else
        var entries := st.entries + [FromDecompressed(e.virtStart, e.virtEnd, st.current)];
        if CoversHead(e) && st.current + HEAD > U32_MAX then Err(Panicked(OffsetOverflow))
        else
          var skip := if CoversHead(e) then HEAD else 0;
          match Piece(data, decode, e)
          case Err(x) => Err(x)
          case Ok(bytes) =>
            if st.current + skip + |bytes| > U32_MAX then Err(Panicked(OffsetOverflow))
            else Ok(Progress(st.current + skip + |bytes|, entries, st.result + bytes))
  }

  function Run(data: seq<u8>, decode: Yaz0.Decoder, es: seq<Entry>): Result<Progress, Error>
    requires AllFit(es)
    decreases |es|
  {
    if es == [] then Ok(Progress(0, [], []))
    else
      match Run(data, decode, es[..|es| - 1])
      case Err(x) => Err(x)
      case Ok(st) => Step(data, decode, st, es[|es| - 1])
  }

  /** `Vec::resize`: cut to n bytes, or padded with zeros up to n. */
  function Resize(s: seq<u8>, n: nat): (r: seq<u8>)
    ensures |r| == n
    ensures |s| <= n ==> r[..|s|] == s && forall k :: |s| <= k < n ==> r[k] == 0
    ensures n <= |s| ==> r == s[..n]
  {
    if n <= |s| then s[..n] else s + Zeros(n - |s|)
  }

  lemma RunPrefix(data: seq<u8>, decode: Yaz0.Decoder, es: seq<Entry>, i: nat)
    requires AllFit(es) && i < |es|
    ensures AllFit(es[..i]) && AllFit(es[..i + 1])
    ensures Run(data, decode, es[..i]).Err? ==> Run(data, decode, es[..i + 1]) == Run(data, decode, es[..i])
    ensures Run(data, decode, es[..i]).Ok? ==>
      Run(data, decode, es[..i + 1]) == Step(data, decode, Run(data, decode, es[..i]).value, es[i])
  {
    assert es[..i + 1][..i] == es[..i];
  }

  /** Once a prefix of the entries fails, the whole run fails the same way. */
  lemma {:induction false} RunErrorPersists(data: seq<u8>, decode: Yaz0.Decoder, es: seq<Entry>, i: nat)
    requires AllFit(es) && i <= |es| && AllFit(es[..i]) && Run(data, decode, es[..i]).Err?
    ensures Run(data, decode, es) == Run(data, decode, es[..i])
    decreases |es| - i
  {
    if i < |es| {
      RunPrefix(data, decode, es, i);
      RunErrorPersists(data, decode, es, i + 1);
    } else {
      assert es[..i] == es;
    }
  }

  /** The first entry that fails validation, of whatever kind, aborts the whole call with its error. */
  lemma InvalidEntryAborts(data: seq<u8>, decode: Yaz0.Decoder, es: seq<Entry>, i: nat)
    requires AllFit(es) && i < |es|
    requires AllFit(es[..i]) && Run(data, decode, es[..i]).Ok?
    requires es[i].Validate().Err?
    ensures Run(data, decode, es) == Err(RomError(LegacyRom.DMAError(es[i].Validate().error)))
  {
    RunPrefix(data, decode, es, i);
    RunErrorPersists(data, decode, es, i + 1);
  }

  /**
   * `Decompressor::decompress`: the table must be present (it is unwrapped).
   * The result is the run's body resized to 64 MiB less the head, its
   * entries, and the input's table offset; a failing pass is returned.
   */
  method Decompress(rom: LegacyRom.Rom, decode: Yaz0.Decoder) returns (r: Result<Output, Error>)
    requires rom.table.Some? && AllFit(rom.table.value.0.entries)
    requires HEAD <= rom.rom.image.Length
    ensures var run := Run(rom.rom.Data(), decode, rom.table.value.0.entries);
      && (r.Ok? <==> run.Ok?)
      && (r.Err? ==> r.error == run.error)
      && (r.Ok? ==> r.value == Output(Resize(run.value.result, ROM_CAPACITY - HEAD), run.value.entries, rom.table.value.1))
  {
    var data := rom.rom.Data();
    var (table, offset) := rom.table.value;
    var es := table.entries;
    var current: u32 := 0;
    var entries: seq<Entry> := [];
    var result: seq<u8> := [];
    for i := 0 to |es|
      invariant AllFit(es[..i])
      invariant Run(data, decode, es[..i]) == Ok(Progress(current, entries, result))
    {
      RunPrefix(data, decode, es, i);
      var entry := es[i];
      var validated := entry.Validate();
      if validated.Err? {
        r := Err(RomError(LegacyRom.DMAError(validated.error)));
        RunErrorPersists(data, decode, es, i + 1);
        return;
      }
      var v := validated.value;
      match v.realRange
      case None =>
        entries := entries + [entry];
      case Some(_) =>
        var step := FileStep(data, decode, current, entry, Progress(current, entries, result));
        entries := entries + [FromDecompressed(v.virt.start, v.virt.end, current)];
        if step.Err? {
          r := Err(step.error);
          RunErrorPersists(data, decode, es, i + 1);
          return;
        }
        current, result := step.value.0, result + step.value.1;
    }
    assert es[..|es|] == es;
    r := Ok(Output(Resize(result, ROM_CAPACITY - HEAD), entries, offset));
  }

  /**
   * The body of the loop for a file with real range phys: the offset after
   * it and the bytes it appends, as `Step` states.
   */
  method FileStep(data: seq<u8>, decode: Yaz0.Decoder, current: u32, entry: Entry, ghost st: Progress)
    returns (r: Result<(u32, seq<u8>), Error>)
    requires entry.RangeFits() && entry.Validate().Ok? && IsFile(entry) && st.current == current
    ensures var step := Step(data, decode, st, entry);
      && (r.Ok? <==> step.Ok?)
      && (r.Err? ==> r.error == step.error)
      && (r.Ok? ==> step.value.current == r.value.0 && step.value.result == st.result + r.value.1)
  {
    var phys := entry.RealRange().value;
    var kind := entry.Kind();
    var cur: nat := current;
    var bytes: seq<u8>;
    if kind == Compressed {
      if phys.start < HEAD {
        return Err(Panicked(StartBeforeHead(phys)));
      }
      var decoded := decode(From(data, phys.start - HEAD));
      if decoded.Err? {
        return Err(Panicked(Yaz0Failure(decoded.error)));
      }
      bytes := decoded.value;
    } else {
      var start: nat, length: nat;
      if phys.start < HEAD {
        cur := cur + HEAD;
        if cur > U32_MAX {
          return Err(Panicked(OffsetOverflow));
        }
        if phys.Len() < HEAD {
          return Err(Panicked(LengthBeforeHead(phys)));
        }
        start, length := 0, phys.Len() - HEAD;
      } else {
        start, length := phys.start - HEAD, phys.Len();
      }
      var read := ReadExact(data, start, length);
      if read.Err? {
        return Err(read.error);
      }
      bytes := read.value;
    }
    if cur + |bytes| > U32_MAX {
      return Err(Panicked(OffsetOverflow));
    }
    r := Ok((cur + |bytes|, bytes));
  }

  // ---------------------------------------------------------------------------
  // What the run computes

  /** The entry the loop records for e when the running offset is current. */
  function Recorded(e: Entry, current: u32): Entry
    requires e.RangeFits()
  {
    if IsFile(e) then FromDecompressed(e.virtStart, e.virtEnd, current) else e
  }

  /** How many of the entries cover the head. */
  function HeadCount(es: seq<Entry>): nat
    requires AllFit(es)
    decreases |es|
  {
    if es == [] then 0
    else HeadCount(es[..|es| - 1]) + (if CoversHead(es[|es| - 1]) then 1 else 0)
  }

  /** A successful pass: what it adds to the entries, the offset and the body. */
  lemma StepShape(data: seq<u8>, decode: Yaz0.Decoder, st: Progress, e: Entry)
    requires e.RangeFits() && Step(data, decode, st, e).Ok?
    ensures var out := Step(data, decode, st, e).value;
      && e.Validate().Ok?
      && out.entries == st.entries + [Recorded(e, st.current)]
      && (!IsFile(e) ==> out.current == st.current && out.result == st.result)
      && (IsFile(e) ==>
            && Piece(data, decode, e).Ok?
            && out.result == st.result + Piece(data, decode, e).value
            && out.current == st.current + (if CoversHead(e) then HEAD else 0) + |Piece(data, decode, e).value|)
  {
  }

  /** A successful run is a successful run of all but the last entry, then one pass. */
  lemma RunLast(data: seq<u8>, decode: Yaz0.Decoder, es: seq<Entry>)
    requires es != [] && AllFit(es) && Run(data, decode, es).Ok?
    ensures AllFit(es[..|es| - 1]) && Run(data, decode, es[..|es| - 1]).Ok?
    ensures Run(data, decode, es) == Step(data, decode, Run(data, decode, es[..|es| - 1]).value, es[|es| - 1])
  {
  }

  /**
   * Every prefix of a successful run succeeds too, and the body it has built
   * so far begins the final body.
   */
  lemma {:induction false} RunPrefixes(data: seq<u8>, decode: Yaz0.Decoder, es: seq<Entry>, i: nat)
    requires AllFit(es) && Run(data, decode, es).Ok? && i <= |es|
    ensures AllFit(es[..i]) && Run(data, decode, es[..i]).Ok?
    ensures Run(data, decode, es[..i]).value.result <= Run(data, decode, es).value.result
    decreases |es| - i
  {
    if i == |es| {
      assert es[..i] == es;
    } else {
      RunPrefixes(data, decode, es, i + 1);
      RunPrefix(data, decode, es, i);
      StepShape(data, decode, Run(data, decode, es[..i]).value, es[i]);
    }
  }

  /** One successful pass grows the offset by the bytes it appends, plus the head if the entry covers it. */
  lemma CurrentStep(data: seq<u8>, decode: Yaz0.Decoder, st: Progress, e: Entry)
    requires e.RangeFits() && Step(data, decode, st, e).Ok?
    ensures var out := Step(data, decode, st, e).value;
      out.current - |out.result| == st.current - |st.result| + (if CoversHead(e) then HEAD else 0)
  {
    StepShape(data, decode, st, e);
  }

  /** The running offset is the body's length plus the head once per entry covering it. */
  lemma {:induction false} RunCurrent(data: seq<u8>, decode: Yaz0.Decoder, es: seq<Entry>)
    requires AllFit(es) && Run(data, decode, es).Ok?
    ensures Run(data, decode, es).value.current == |Run(data, decode, es).value.result| + HEAD * HeadCount(es)
    decreases |es|
  {
    if es != [] {
      var front := es[..|es| - 1];
      var e := es[|es| - 1];
      RunLast(data, decode, es);
      RunCurrent(data, decode, front);
      var st := Run(data, decode, front).value;
      CurrentStep(data, decode, st, e);
      var h := HeadCount(front);
      assert HEAD * HeadCount(es) == HEAD * h + (if CoversHead(e) then HEAD else 0);
    }
  }

  /** Entry i of outs is what the loop records for es[i] after the entries before it. */
  predicate RecordedAt(data: seq<u8>, decode: Yaz0.Decoder, es: seq<Entry>, outs: seq<Entry>, i: nat)
    requires AllFit(es) && i < |es| && i < |outs|
  {
    && AllFit(es[..i]) && es[i].Validate().Ok? && Run(data, decode, es[..i]).Ok?
    && outs[i] == Recorded(es[i], Run(data, decode, es[..i]).value.current)
  }

  predicate RecordedAll(data: seq<u8>, decode: Yaz0.Decoder, es: seq<Entry>, outs: seq<Entry>)
    requires AllFit(es)
  {
    |outs| == |es| && forall i :: 0 <= i < |es| ==> RecordedAt(data, decode, es, outs, i)
  }

  lemma RecordedSnoc(data: seq<u8>, decode: Yaz0.Decoder, es: seq<Entry>, outs: seq<Entry>, x: Entry)
    requires es != [] && AllFit(es) && AllFit(es[..|es| - 1])
    requires RecordedAll(data, decode, es[..|es| - 1], outs)
    requires es[|es| - 1].Validate().Ok? && Run(data, decode, es[..|es| - 1]).Ok?
    requires x == Recorded(es[|es| - 1], Run(data, decode, es[..|es| - 1]).value.current)
    ensures RecordedAll(data, decode, es, outs + [x])
  {
    var n := |es| - 1;
    var front := es[..n];
    forall i | 0 <= i < |es|
      ensures RecordedAt(data, decode, es, outs + [x], i)
    {
      if i < n {
        assert es[..i] == front[..i];
        assert RecordedAt(data, decode, front, outs, i);
      } else {
        assert es[..i] == front;
      }
    }
  }

  /**
   * A successful run validated every entry and rewrote entry i as a
   * decompressed entry at the offset reached before it (files) or kept it
   * (all other entries).
   */
  lemma {:induction false} RunEntries(data: seq<u8>, decode: Yaz0.Decoder, es: seq<Entry>)
    requires AllFit(es) && Run(data, decode, es).Ok?
    ensures RecordedAll(data, decode, es, Run(data, decode, es).value.entries)
    decreases |es|
  {
    if es != [] {
      var n := |es| - 1;
      var front := es[..n];
      RunLast(data, decode, es);
      RunEntries(data, decode, front);
      var st := Run(data, decode, front).value;
      StepShape(data, decode, st, es[n]);
      RecordedSnoc(data, decode, es, st.entries, Recorded(es[n], st.current));
    }
  }

  /**
   * Where a file's bytes went: right after those of the entries before it,
   * and they stay there to the end of the run.
   */
  lemma FilePlaced(data: seq<u8>, decode: Yaz0.Decoder, es: seq<Entry>, i: nat)
    requires AllFit(es) && Run(data, decode, es).Ok? && i < |es| && IsFile(es[i])
    ensures AllFit(es[..i]) && Run(data, decode, es[..i]).Ok?
    ensures es[i].Validate().Ok? && Piece(data, decode, es[i]).Ok?
    ensures var at, piece := |Run(data, decode, es[..i]).value.result|, Piece(data, decode, es[i]).value;
      && at + |piece| <= |Run(data, decode, es).value.result|
      && Run(data, decode, es).value.result[at..at + |piece|] == piece
  {
    RunPrefixes(data, decode, es, i);
    RunPrefixes(data, decode, es, i + 1);
    RunPrefix(data, decode, es, i);
    var st := Run(data, decode, es[..i]).value;
    StepShape(data, decode, st, es[i]);
    var whole := Run(data, decode, es).value.result;
    var next := Run(data, decode, es[..i + 1]).value.result;
    var piece := Piece(data, decode, es[i]).value;
    assert next == st.result + piece;
    assert whole[|st.result|..|st.result| + |piece|] == next[|st.result|..];
  }

  /**
   * What a file's rewritten entry records: the position of its bytes in the
   * body plus the head once for every entry before it that covers the head.
   * When only the first file covers the head, that is the position of its
   * bytes in the head followed by the body.
   */
  lemma FileRecorded(data: seq<u8>, decode: Yaz0.Decoder, es: seq<Entry>, i: nat)
    requires AllFit(es) && Run(data, decode, es).Ok? && i < |es| && IsFile(es[i])
    ensures AllFit(es[..i]) && Run(data, decode, es[..i]).Ok?
    ensures |Run(data, decode, es).value.entries| == |es|
    ensures Run(data, decode, es).value.entries[i] == FromDecompressed(es[i].virtStart, es[i].virtEnd, Run(data, decode, es[..i]).value.current)
    ensures Run(data, decode, es).value.entries[i].physStart ==
      |Run(data, decode, es[..i]).value.result| + HEAD * HeadCount(es[..i])
  {
    RunEntries(data, decode, es);
    assert RecordedAt(data, decode, es, Run(data, decode, es).value.entries, i);
    RunCurrent(data, decode, es[..i]);
  }

  /** No entry of the rewritten table is compressed. */
  lemma RunLeavesNoCompressed(data: seq<u8>, decode: Yaz0.Decoder, es: seq<Entry>)
    requires AllFit(es) && Run(data, decode, es).Ok?
    ensures var out := Run(data, decode, es).value;
      forall i :: 0 <= i < |out.entries| ==> out.entries[i].Kind() != Compressed
  {
    RunEntries(data, decode, es);
    var out := Run(data, decode, es).value;
    forall i | 0 <= i < |out.entries|
      ensures out.entries[i].Kind() != Compressed
    {
      assert RecordedAt(data, decode, es, out.entries, i);
      var e := es[i];
      if IsFile(e) {
        FromDecompressedKind(e.virtStart, e.virtEnd, Run(data, decode, es[..i]).value.current);
      }
    }
  }
}
