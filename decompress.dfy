/**
 * Decompression of the DMA filesystem (zelda64-rs/src/decompress.rs): every
 * file of the table is resolved to its plain bytes in a fresh zero-filled
 * 64 MiB arena, either at its virtual address (matching layout) or packed one
 * after another from 0 (compact layout), and the table is rewritten to
 * describe the result.
 *
 * `Run` states what the loop computes, one entry at a time (`Step`); the
 * method writes the arena in place and is proved to agree with it. The lemmas
 * below state the layout properties of `Run`.
 */
module Decompress {
  import opened Common
  import opened Dma
  import Yaz0
  import N64Rom
  import ZRom

  /** `ROM_CAPACITY`: 64 MiB. */
  const ROM_CAPACITY: nat := 1024 * 1024 * 64

  /** `Options`: whether output files sit at their virtual addresses. */
  datatype Options = Options(matching: bool)

  /** `Options::default`: the matching layout. */
  function DefaultOptions(): (o: Options)
    ensures o.matching
  {
    Options(true)
  }

  /**
   * The ways `decompress_rom` stops. InputOutOfRange and OutputOutOfRange
   * are panics in the source: slicing the image in `Rom::slice`, and slicing
   * the arena in the compact layout.
   */
  datatype Error =
    | DmaError(dma: Dma.Error)
    | OutOfRangeError(range: Range)
    | Yaz0Error(yaz0: Yaz0.Error)
    | InputOutOfRange(range: Range)
    | OutputOutOfRange(range: Range)

  /** One file written to the arena: where, and what. */
  datatype Placement = Placement(at: nat, bytes: seq<u8>) {
    function End(): nat { at + |bytes| }
  }

  /** The loop state: arena, compact cursor, output entries, and (for the proofs) the writes so far. */
  datatype Layout = Layout(data: seq<u8>, offset: nat, entries: seq<Entry>, writes: seq<Placement>)

  function Start(): (st: Layout)
    ensures |st.data| == ROM_CAPACITY
  {
    Layout(Zeros(ROM_CAPACITY), 0, [], [])
  }

  /**
   * The plain bytes of a file entry: its real range of the image, decoded
   * into as many bytes as its virtual range holds when compressed, copied
   * as it is otherwise.
   */
  function FileBytes(full: seq<u8>, decode: Yaz0.Decoder, e: Entry): (r: Result<seq<u8>, Error>)
    requires e.RangeFits() && IsFile(e) && e.Validate().Ok?
    ensures r.Ok? ==> |r.value| == e.Virt().Len()
    ensures r.Ok? && e.Kind() == Decompressed ==>
      e.physStart + e.Virt().Len() <= |full| && r.value == full[e.physStart..e.physStart + e.Virt().Len()]
    ensures r.Ok? && e.Kind() == Compressed ==>
      e.RealRange().value.end <= |full| &&
      Yaz0.DecompressInto(decode, full[e.RealRange().value.start..e.RealRange().value.end], e.Virt().Len()) == Ok(r.value)
    ensures e.RealRange().value.end > |full| ==> r == Err(InputOutOfRange(e.RealRange().value))
    ensures e.RealRange().value.end <= |full| && e.Kind() == Compressed ==>
      var y := Yaz0.DecompressInto(decode, full[e.RealRange().value.start..e.RealRange().value.end], e.Virt().Len());
      y.Err? ==> r == Err(Yaz0Error(y.error))
    ensures r.Err? ==> r.error.InputOutOfRange? || r.error.Yaz0Error?
  {
    var rr := e.RealRange().value;
    if rr.end > |full| then Err(InputOutOfRange(rr))
    else
      var input := full[rr.start..rr.end];
      if e.Kind() == Compressed then
        match Yaz0.DecompressInto(decode, input, e.Virt().Len())
        case Ok(d) => Ok(d)
        case Err(y) => Err(Yaz0Error(y))
      else Ok(input)
  }

  /** Where the layout puts the next file, and the cursor after it. */
  function OutputStart(opts: Options, offset: nat, e: Entry): (r: Result<nat, Error>)
    ensures r.Ok? ==> r.value + e.Virt().Len() <= ROM_CAPACITY
  {
    if opts.matching then
      if e.virtStart <= e.virtEnd && e.virtEnd <= ROM_CAPACITY then Ok(e.virtStart)
      else Err(OutOfRangeError(e.Virt()))
    else if offset + e.Virt().Len() <= ROM_CAPACITY then Ok(offset)
    else Err(OutputOutOfRange(Range(offset, offset + e.Virt().Len())))
  }

  /**
   * One pass of the loop. The entry is validated; an entry without file
   * data is kept as it is; a file is sliced from the image, given its place
   * in the arena, resolved and written there, and described by a
   * decompressed entry whose physical start is its virtual start.
   */
  function Step(opts: Options, full: seq<u8>, decode: Yaz0.Decoder, st: Layout, e: Entry): (r: Result<Layout, Error>)
    requires |st.data| == ROM_CAPACITY && e.RangeFits()
    ensures r.Ok? ==> |r.value.data| == ROM_CAPACITY
  {
    match e.Validate()
    case Err(d) => Err(DmaError(d))
    case Ok(v) =>
      if !IsFile(e) then Ok(st.(entries := st.entries + [e]))
      else if e.RealRange().value.end > |full| then Err(InputOutOfRange(e.RealRange().value))
      else
        match OutputStart(opts, st.offset, e)
        case Err(o) => Err(o)
        case Ok(at) =>
          var offset := if opts.matching then st.offset else st.offset + e.Virt().Len();
          match FileBytes(full, decode, e)
          case Err(y) => Err(y)
          case Ok(bytes) =>
            Ok(Layout(Overwrite(st.data, at, bytes), offset,
                      st.entries + [FromDecompressed(e.virtStart, e.virtEnd, e.virtStart)],
                      st.writes + [Placement(at, bytes)]))
  }

  /** The loop over the first |es| entries. */
  function Run(opts: Options, full: seq<u8>, decode: Yaz0.Decoder, es: seq<Entry>): (r: Result<Layout, Error>)
    requires AllFit(es)
    ensures r.Ok? ==> |r.value.data| == ROM_CAPACITY
    decreases |es|
  {
    if es == [] then Ok(Start())
    else
      match Run(opts, full, decode, es[..|es| - 1])
      case Err(x) => Err(x)
      case Ok(st) => Step(opts, full, decode, st, es[|es| - 1])
  }

  lemma RunPrefix(opts: Options, full: seq<u8>, decode: Yaz0.Decoder, es: seq<Entry>, i: nat)
    requires AllFit(es) && i < |es|
    ensures AllFit(es[..i]) && AllFit(es[..i + 1])
    ensures Run(opts, full, decode, es[..i]).Err? ==> Run(opts, full, decode, es[..i + 1]) == Run(opts, full, decode, es[..i])
    ensures Run(opts, full, decode, es[..i]).Ok? ==>
      Run(opts, full, decode, es[..i + 1]) == Step(opts, full, decode, Run(opts, full, decode, es[..i]).value, es[i])
  {
    assert es[..i + 1][..i] == es[..i];
  }

  /** The first pass that fails decides the outcome of the whole run. */
  lemma {:induction false} RunStopsAt(opts: Options, full: seq<u8>, decode: Yaz0.Decoder, es: seq<Entry>, i: nat)
    requires AllFit(es) && i < |es|
    requires AllFit(es[..i]) && Run(opts, full, decode, es[..i]).Ok?
    requires Step(opts, full, decode, Run(opts, full, decode, es[..i]).value, es[i]).Err?
    ensures Run(opts, full, decode, es) == Step(opts, full, decode, Run(opts, full, decode, es[..i]).value, es[i])
  {
    RunPrefix(opts, full, decode, es, i);
    RunErrorPersists(opts, full, decode, es, i + 1);
  }

  /** Once a prefix of the entries fails, the whole run fails the same way. */
  lemma {:induction false} RunErrorPersists(opts: Options, full: seq<u8>, decode: Yaz0.Decoder, es: seq<Entry>, i: nat)
    requires AllFit(es) && i <= |es| && AllFit(es[..i]) && Run(opts, full, decode, es[..i]).Err?
    ensures Run(opts, full, decode, es) == Run(opts, full, decode, es[..i])
    decreases |es| - i
  {
    if i < |es| {
      RunPrefix(opts, full, decode, es, i);
      RunErrorPersists(opts, full, decode, es, i + 1);
    } else {
      assert es[..i] == es;
    }
  }

  /**
   * Every entry is validated before anything else is looked at: the first
   * one that fails aborts the whole call with its range error, whatever its
   * kind.
   */
  lemma InvalidEntryAborts(opts: Options, full: seq<u8>, decode: Yaz0.Decoder, es: seq<Entry>, i: nat)
    requires AllFit(es) && i < |es|
    requires AllFit(es[..i]) && Run(opts, full, decode, es[..i]).Ok?
    requires es[i].Validate().Err?
    ensures Run(opts, full, decode, es) == Err(DmaError(es[i].Validate().error))
  {
    RunStopsAt(opts, full, decode, es, i);
  }

  /**
   * In the matching layout a valid file whose virtual range runs past the
   * 64 MiB arena fails with that range, once its input slice exists.
   */
  lemma MatchingOutOfRange(full: seq<u8>, decode: Yaz0.Decoder, es: seq<Entry>, i: nat)
    requires AllFit(es) && i < |es|
    requires AllFit(es[..i]) && Run(Options(true), full, decode, es[..i]).Ok?
    requires es[i].Validate().Ok? && IsFile(es[i]) && es[i].RealRange().value.end <= |full|
    requires es[i].virtEnd > ROM_CAPACITY
    ensures Run(Options(true), full, decode, es) == Err(OutOfRangeError(es[i].Virt()))
  {
    RunStopsAt(Options(true), full, decode, es, i);
  }

  /** Writes one resolved file into the arena (`decompress_into` or `copy_from_slice`). */
  method Place(data: array<u8>, at: nat, bytes: seq<u8>)
    requires at + |bytes| <= data.Length
    modifies data
    ensures data[..] == Overwrite(old(data[..]), at, bytes)
  {
    forall k | 0 <= k < |bytes| {
      data[at + k] := bytes[k];
    }
  }

  /**
   * `decompress_rom`: the table must be present (it is unwrapped). The result
   * is a new ROM whose image is the arena of `Run` and whose table, at the old
   * address, holds the rewritten entries; any failure of `Run` is returned.
   */
  method DecompressRom(rom: ZRom.Rom, options: Options, decode: Yaz0.Decoder) returns (r: Result<ZRom.Rom, Error>)
    requires rom.table.Some? && AllFit(rom.table.value.entries)
    ensures var run := Run(options, rom.rom.Full(), decode, rom.table.value.entries);
      && (r.Ok? <==> run.Ok?)
      && (r.Err? ==> r.error == run.error)
      && (r.Ok? ==>
        && fresh(r.value) && fresh(r.value.rom) && fresh(r.value.rom.image)
        && r.value.rom.image[..] == run.value.data
        && r.value.table == Some(ZRom.AddressedTable(rom.table.value.address, run.value.entries))
        && r.value.rom.header == rom.rom.header && r.value.rom.ipl3 == rom.rom.ipl3
        && r.value.rom.order == rom.rom.order)
  {
    var table := rom.table.value;
    var es := table.entries;
    ghost var full := rom.rom.Full();
    var data := new u8[ROM_CAPACITY](_ => 0);
    var entries: seq<Entry> := [];
    var offset: nat := 0;
    ghost var writes: seq<Placement> := [];
    assert data[..] == Zeros(ROM_CAPACITY);
    for i := 0 to |es|
      invariant AllFit(es[..i])
      invariant Run(options, full, decode, es[..i]) == Ok(Layout(data[..], offset, entries, writes))
    {
      RunPrefix(options, full, decode, es, i);
      var step;
      step, writes := DecompressEntry(rom, options, decode, data, offset, entries, writes, es[i]);
      if step.Err? {
        r := Err(step.error);
        RunStopsAt(options, full, decode, es, i);
        return;
      }
      offset, entries := step.value.0, step.value.1;
    }
    assert es[..|es|] == es;
    var n64rom := new N64Rom.Rom.From(rom.rom.header, rom.rom.ipl3, data, rom.rom.Order());
    var result := new ZRom.Rom.From(n64rom, Some(ZRom.AddressedTable(table.address, entries)));
    r := Ok(result);
  }

  /**
   * One pass of the loop of `decompress_rom` over the arena data: the new
   * cursor and entry list, with the arena updated in place, as `Step` says.
   */
  method DecompressEntry(rom: ZRom.Rom, options: Options, decode: Yaz0.Decoder, data: array<u8>,
                         offset: nat, entries: seq<Entry>, ghost writes: seq<Placement>, entry: Entry)
    returns (r: Result<(nat, seq<Entry>), Error>, ghost writes': seq<Placement>)
    requires data.Length == ROM_CAPACITY && data != rom.rom.image && entry.RangeFits()
    modifies data
    ensures var step := Step(options, rom.rom.Full(), decode, Layout(old(data[..]), offset, entries, writes), entry);
      && (r.Ok? <==> step.Ok?)
      && (r.Err? ==> r.error == step.error)
      && (r.Ok? ==> step.value == Layout(data[..], r.value.0, r.value.1, writes'))
  {
    writes' := writes;
    var validated := entry.Validate();
    if validated.Err? {
      return Err(DmaError(validated.error)), writes';
    }
    var v := validated.value;
    match v.realRange
    case None =>
      r := Ok((offset, entries + [entry]));
    case Some(range) =>
      if range.end > rom.rom.image.Length {
        return Err(InputOutOfRange(range)), writes';
      }
      var input := rom.Slice(entry);
      var at: nat;
      var next := offset;
      if options.matching {
        if v.virt.end > ROM_CAPACITY {
          return Err(OutOfRangeError(v.virt)), writes';
        }
        at := v.virt.start;
      } else {
        at := offset;
        next := offset + v.virt.Len();
        if next > ROM_CAPACITY {
          return Err(OutputOutOfRange(Range(at, next))), writes';
        }
      }
      var output := FromDecompressed(v.virt.start, v.virt.end, v.virt.start);
      var bytes: seq<u8>;
      if v.kind == Compressed {
        var decoded := Yaz0.DecompressInto(decode, input, v.virt.Len());
        if decoded.Err? {
          return Err(Yaz0Error(decoded.error)), writes';
        }
        bytes := decoded.value;
      } else {
        bytes := input;
      }
      assert FileBytes(rom.rom.Full(), decode, entry) == Ok(bytes);
      Place(data, at, bytes);
      writes' := writes + [Placement(at, bytes)];
      r := Ok((next, entries + [output]));
  }

  /** `decompress`: `decompress_rom` with the default options, the matching layout. */
  method DecompressDefault(rom: ZRom.Rom, decode: Yaz0.Decoder) returns (r: Result<ZRom.Rom, Error>)
    requires rom.table.Some? && AllFit(rom.table.value.entries)
    ensures var run := Run(Options(true), rom.rom.Full(), decode, rom.table.value.entries);
      && (r.Ok? <==> run.Ok?)
      && (r.Err? ==> r.error == run.error)
      && (r.Ok? ==> fresh(r.value.rom.image) && r.value.rom.image[..] == run.value.data)
  {
    var options := DefaultOptions();
    r := DecompressRom(rom, options, decode);
  }

  // ---------------------------------------------------------------------------
  // Writes into the arena

  predicate Fit(ws: seq<Placement>, n: nat) {
    forall j :: 0 <= j < |ws| ==> ws[j].End() <= n
  }

  /** The arena after the writes ws, in order, over base. */
  function Applied(base: seq<u8>, ws: seq<Placement>): (r: seq<u8>)
    requires Fit(ws, |base|)
    ensures |r| == |base|
    decreases |ws|
  {
    if ws == [] then base
    else Overwrite(Applied(base, ws[..|ws| - 1]), ws[|ws| - 1].at, ws[|ws| - 1].bytes)
  }

  predicate Disjoint(ws: seq<Placement>) {
    forall i, j :: 0 <= i < j < |ws| ==> ws[i].End() <= ws[j].at || ws[j].End() <= ws[i].at
  }

  /** A position no write covers keeps its byte. */
  lemma {:induction false} AppliedOutside(base: seq<u8>, ws: seq<Placement>, k: nat)
    requires Fit(ws, |base|) && k < |base|
    requires forall j :: 0 <= j < |ws| ==> !(ws[j].at <= k < ws[j].End())
    ensures Applied(base, ws)[k] == base[k]
    decreases |ws|
  {
    if ws != [] {
      AppliedOutside(base, ws[..|ws| - 1], k);
    }
  }

  /** When no two writes overlap, every write is found intact at its place. */
  lemma {:induction false} AppliedDisjoint(base: seq<u8>, ws: seq<Placement>, j: nat)
    requires Fit(ws, |base|) && Disjoint(ws) && j < |ws|
    ensures Applied(base, ws)[ws[j].at..ws[j].End()] == ws[j].bytes
    decreases |ws|
  {
    var n := |ws| - 1;
    if j < n {
      var front := ws[..n];
      AppliedDisjoint(base, front, j);
      var before := Applied(base, front);
      var after := Applied(base, ws);
      assert ws[n].End() <= ws[j].at || ws[j].End() <= ws[n].at;
      var lo, hi := ws[j].at, ws[j].End();
      assert after == Overwrite(before, ws[n].at, ws[n].bytes);
      forall k | lo <= k < hi
        ensures after[k] == before[k]
      {
        assert !(ws[n].at <= k < ws[n].End());
      }
      assert after[lo..hi] == before[lo..hi];
    }
  }

  /** The j-th of several non-overlapping writes, found where it was made. */
  lemma WriteFound(data: seq<u8>, base: seq<u8>, ws: seq<Placement>, j: nat, at: nat, len: nat)
    requires Fit(ws, |base|) && Disjoint(ws) && j < |ws| && data == Applied(base, ws)
    requires ws[j].at == at && |ws[j].bytes| == len
    ensures at + len <= |data| && data[at..at + len] == ws[j].bytes
  {
    AppliedDisjoint(base, ws, j);
  }

  // ---------------------------------------------------------------------------
  // Files and their packed positions

  /** The entry `decompress_rom` writes for e: a file becomes decompressed at its virtual start. */
  function Rewritten(e: Entry): (r: Entry)
    requires e.RangeFits()
  {
    if IsFile(e) then FromDecompressed(e.virtStart, e.virtEnd, e.virtStart) else e
  }

  /**
   * The total virtual length of the first j files: where the compact layout
   * puts the file after them.
   */
  function PackedAt(fs: seq<Entry>, j: nat): nat
    requires j <= |fs|
  {
    if j == 0 then 0 else PackedAt(fs, j - 1) + fs[j - 1].Virt().Len()
  }

  /** Later files start no earlier than where earlier ones end. */
  lemma {:induction false} PackedAtMonotone(fs: seq<Entry>, i: nat, j: nat)
    requires i < j <= |fs|
    ensures PackedAt(fs, i + 1) <= PackedAt(fs, j)
    decreases j - i
  {
    if i + 1 < j {
      PackedAtMonotone(fs, i + 1, j);
    }
  }

  /** Appending a file does not move the ones already there. */
  lemma {:induction false} PackedAtSnoc(fs: seq<Entry>, e: Entry, j: nat)
    requires j <= |fs|
    ensures PackedAt(fs + [e], j) == PackedAt(fs, j)
  {
    if j > 0 {
      PackedAtSnoc(fs, e, j - 1);
    }
  }

  // ---------------------------------------------------------------------------
  // What the run computes

  /** What a successful pass does to the state. */
  lemma StepShape(opts: Options, full: seq<u8>, decode: Yaz0.Decoder, st: Layout, e: Entry)
    requires |st.data| == ROM_CAPACITY && e.RangeFits() && Step(opts, full, decode, st, e).Ok?
    ensures var out := Step(opts, full, decode, st, e).value;
      && e.Validate().Ok?
      && out.entries == st.entries + [Rewritten(e)]
      && (!IsFile(e) ==> out.data == st.data && out.offset == st.offset && out.writes == st.writes)
      && (IsFile(e) ==>
            && OutputStart(opts, st.offset, e).Ok? && FileBytes(full, decode, e).Ok?
            && out.writes == st.writes + [Placement(OutputStart(opts, st.offset, e).value, FileBytes(full, decode, e).value)]
            && out.data == Overwrite(st.data, OutputStart(opts, st.offset, e).value, FileBytes(full, decode, e).value)
            && out.offset == (if opts.matching then st.offset else st.offset + e.Virt().Len()))
  {
  }

  /** A successful run is a successful run of all but the last entry, then one pass. */
  lemma RunLast(opts: Options, full: seq<u8>, decode: Yaz0.Decoder, es: seq<Entry>)
    requires es != [] && AllFit(es) && Run(opts, full, decode, es).Ok?
    ensures AllFit(es[..|es| - 1]) && Run(opts, full, decode, es[..|es| - 1]).Ok?
    ensures Run(opts, full, decode, es) == Step(opts, full, decode, Run(opts, full, decode, es[..|es| - 1]).value, es[|es| - 1])
  {
  }

  lemma FilesLast(es: seq<Entry>)
    requires es != [] && AllFit(es)
    ensures AllFit(es[..|es| - 1])
    ensures Files(es) == Files(es[..|es| - 1]) + (if IsFile(es[|es| - 1]) then [es[|es| - 1]] else [])
  {
  }

  /**
   * A successful run validated every entry and rewrote the table entry by
   * entry: files become decompressed entries at their virtual start, all
   * other entries are kept.
   */
  lemma {:induction false} RunEntries(opts: Options, full: seq<u8>, decode: Yaz0.Decoder, es: seq<Entry>)
    requires AllFit(es) && Run(opts, full, decode, es).Ok?
    ensures RewrittenAll(es, Run(opts, full, decode, es).value.entries)
    decreases |es|
  {
    if es != [] {
      var n := |es| - 1;
      var front := es[..n];
      RunLast(opts, full, decode, es);
      RunEntries(opts, full, decode, front);
      var st := Run(opts, full, decode, front).value;
      StepShape(opts, full, decode, st, es[n]);
      RewrittenSnoc(es, st.entries, Run(opts, full, decode, es).value.entries);
    }
  }

  /** outs is es entry by entry rewritten, every entry having validated. */
  predicate RewrittenAll(es: seq<Entry>, outs: seq<Entry>)
    requires AllFit(es)
  {
    |outs| == |es| && forall i :: 0 <= i < |es| ==> es[i].Validate().Ok? && outs[i] == Rewritten(es[i])
  }

  lemma RewrittenSnoc(es: seq<Entry>, before: seq<Entry>, after: seq<Entry>)
    requires es != [] && AllFit(es) && AllFit(es[..|es| - 1]) && RewrittenAll(es[..|es| - 1], before)
    requires es[|es| - 1].Validate().Ok? && after == before + [Rewritten(es[|es| - 1])]
    ensures RewrittenAll(es, after)
  {
  }

  /** No entry of the rewritten table is compressed. */
  lemma RunLeavesNoCompressed(opts: Options, full: seq<u8>, decode: Yaz0.Decoder, es: seq<Entry>)
    requires AllFit(es) && Run(opts, full, decode, es).Ok?
    ensures var out := Run(opts, full, decode, es).value;
      forall i :: 0 <= i < |out.entries| ==> out.entries[i].Kind() != Compressed
  {
    RunEntries(opts, full, decode, es);
    var out := Run(opts, full, decode, es).value;
    forall i | 0 <= i < |out.entries|
      ensures out.entries[i].Kind() != Compressed
    {
      var e := es[i];
      if IsFile(e) {
        FromDecompressedKind(e.virtStart, e.virtEnd, e.virtStart);
      }
    }
  }

  /**
   * A successful run wrote each file once, in order, with its resolved bytes,
   * inside the arena; the arena is those writes over zeros.
   */
  lemma {:induction false} RunWrites(opts: Options, full: seq<u8>, decode: Yaz0.Decoder, es: seq<Entry>)
    requires AllFit(es) && Run(opts, full, decode, es).Ok?
    ensures var out := Run(opts, full, decode, es).value;
      && |out.writes| == |Files(es)|
      && (forall j :: 0 <= j < |Files(es)| ==> Files(es)[j].Validate().Ok?)
      && (forall j :: 0 <= j < |Files(es)| ==> FileBytes(full, decode, Files(es)[j]) == Ok(out.writes[j].bytes))
      && Fit(out.writes, ROM_CAPACITY)
      && out.data == Applied(Zeros(ROM_CAPACITY), out.writes)
    decreases |es|
  {
    if es != [] {
      var n := |es| - 1;
      var front := es[..n];
      RunLast(opts, full, decode, es);
      FilesLast(es);
      RunWrites(opts, full, decode, front);
      var st := Run(opts, full, decode, front).value;
      StepShape(opts, full, decode, st, es[n]);
      var out := Run(opts, full, decode, es).value;
      if IsFile(es[n]) {
        assert out.writes[..|out.writes| - 1] == st.writes;
      }
    }
  }

  /** In the matching layout each file is written at its virtual start, and the cursor stays 0. */
  lemma {:induction false} RunMatching(opts: Options, full: seq<u8>, decode: Yaz0.Decoder, es: seq<Entry>)
    requires opts.matching && AllFit(es) && Run(opts, full, decode, es).Ok?
    ensures var out := Run(opts, full, decode, es).value;
      && |out.writes| == |Files(es)|
      && out.offset == 0
      && (forall j :: 0 <= j < |out.writes| ==> out.writes[j].at == Files(es)[j].virtStart)
    decreases |es|
  {
    RunWrites(opts, full, decode, es);
    if es != [] {
      var n := |es| - 1;
      var front := es[..n];
      RunLast(opts, full, decode, es);
      FilesLast(es);
      RunMatching(opts, full, decode, front);
      StepShape(opts, full, decode, Run(opts, full, decode, front).value, es[n]);
    }
  }

  /**
   * In the compact layout each file is written right after the files before
   * it, and the cursor ends after the last.
   */
  lemma {:induction false} RunCompact(opts: Options, full: seq<u8>, decode: Yaz0.Decoder, es: seq<Entry>)
    requires !opts.matching && AllFit(es) && Run(opts, full, decode, es).Ok?
    ensures var out := Run(opts, full, decode, es).value;
      && |out.writes| == |Files(es)|
      && out.offset == PackedAt(Files(es), |Files(es)|)
      && (forall j {:trigger out.writes[j]} :: 0 <= j < |out.writes| ==> out.writes[j].at == PackedAt(Files(es), j))
    decreases |es|
  {
    RunWrites(opts, full, decode, es);
    if es != [] {
      var n := |es| - 1;
      var front := es[..n];
      RunLast(opts, full, decode, es);
      FilesLast(es);
      RunCompact(opts, full, decode, front);
      StepShape(opts, full, decode, Run(opts, full, decode, front).value, es[n]);
      if IsFile(es[n]) {
        CompactStep(Files(front), es[n]);
      }
    }
  }

  lemma CompactStep(ff: seq<Entry>, e: Entry)
    ensures PackedAt(ff + [e], |ff| + 1) == PackedAt(ff, |ff|) + e.Virt().Len()
    ensures forall j :: 0 <= j <= |ff| ==> PackedAt(ff + [e], j) == PackedAt(ff, j)
  {
    forall j | 0 <= j <= |ff|
      ensures PackedAt(ff + [e], j) == PackedAt(ff, j)
    {
      PackedAtSnoc(ff, e, j);
    }
  }

  /** Writes placed at their files' packed offsets. */
  predicate Packed(fs: seq<Entry>, ws: seq<Placement>) {
    |ws| == |fs| &&
    forall j {:trigger ws[j]} :: 0 <= j < |ws| ==> ws[j].at == PackedAt(fs, j) && |ws[j].bytes| == fs[j].Virt().Len()
  }

  /** Packed writes never overlap. */
  lemma {:induction false} PackedDisjoint(fs: seq<Entry>, ws: seq<Placement>)
    requires Packed(fs, ws)
    ensures Disjoint(ws)
  {
    forall i, j | 0 <= i < j < |ws|
      ensures ws[i].End() <= ws[j].at
    {
      PackedAtMonotone(fs, i, j);
    }
  }

  /** Packed writes end by the total length of the files, the last one exactly there. */
  lemma {:induction false} PackedWithin(fs: seq<Entry>, ws: seq<Placement>)
    requires Packed(fs, ws)
    ensures forall j :: 0 <= j < |ws| ==> ws[j].End() <= PackedAt(fs, |fs|)
    ensures |ws| > 0 ==> ws[|ws| - 1].End() == PackedAt(fs, |fs|)
  {
    forall j | 0 <= j < |ws|
      ensures ws[j].End() <= PackedAt(fs, |fs|)
    {
      assert ws[j].End() == PackedAt(fs, j + 1);
      if j + 1 < |fs| {
        PackedAtMonotone(fs, j, |fs|);
      }
    }
    if ws != [] {
      assert ws[|ws| - 1].End() == PackedAt(fs, |ws|);
    }
  }

  /** The compact layout keeps its writes apart and inside the files' total length. */
  lemma CompactWrites(opts: Options, full: seq<u8>, decode: Yaz0.Decoder, es: seq<Entry>)
    requires !opts.matching && AllFit(es) && Run(opts, full, decode, es).Ok?
    ensures var out := Run(opts, full, decode, es).value;
      && Fit(out.writes, ROM_CAPACITY) && Disjoint(out.writes)
      && out.offset == PackedAt(Files(es), |Files(es)|) <= ROM_CAPACITY
      && (forall j :: 0 <= j < |out.writes| ==> out.writes[j].End() <= PackedAt(Files(es), |Files(es)|))
      && |out.writes| == |Files(es)|
      && out.data == Applied(Zeros(ROM_CAPACITY), out.writes)
      && (forall j {:trigger out.writes[j]} :: 0 <= j < |out.writes| ==> out.writes[j].at == PackedAt(Files(es), j))
      && (forall j :: 0 <= j < |Files(es)| ==> Files(es)[j].Validate().Ok?)
      && (forall j :: 0 <= j < |Files(es)| ==> FileBytes(full, decode, Files(es)[j]) == Ok(out.writes[j].bytes))
  {
    RunWrites(opts, full, decode, es);
    RunCompact(opts, full, decode, es);
    var out := Run(opts, full, decode, es).value;
    var fs := Files(es);
    WrittenLengths(full, decode, fs, out.writes);
    assert Packed(fs, out.writes);
    PackedDisjoint(fs, out.writes);
    PackedWithin(fs, out.writes);
  }

  /**
   * The compact layout: the j-th file's bytes occupy the arena from the total
   * length of the files before it.
   */
  lemma CompactLayout(opts: Options, full: seq<u8>, decode: Yaz0.Decoder, es: seq<Entry>, j: nat)
    requires !opts.matching && AllFit(es) && Run(opts, full, decode, es).Ok? && j < |Files(es)|
    ensures var out := Run(opts, full, decode, es).value; var f := Files(es)[j]; var at := PackedAt(Files(es), j);
      && f.Validate().Ok? && FileBytes(full, decode, f).Ok?
      && at + f.Virt().Len() <= ROM_CAPACITY
      && out.data[at..at + f.Virt().Len()] == FileBytes(full, decode, f).value
  {
    CompactWrites(opts, full, decode, es);
    var out := Run(opts, full, decode, es).value;
    var fs := Files(es);
    assert FileBytes(full, decode, fs[j]) == Ok(out.writes[j].bytes);
    WriteFound(out.data, Zeros(ROM_CAPACITY), out.writes, j, PackedAt(fs, j), fs[j].Virt().Len());
    assert out.data[PackedAt(fs, j)..PackedAt(fs, j) + fs[j].Virt().Len()] == out.writes[j].bytes;
    assert FileBytes(full, decode, fs[j]).value == out.writes[j].bytes;
  }

  /** The compact layout leaves the arena zero from the cursor on. */
  lemma CompactTail(opts: Options, full: seq<u8>, decode: Yaz0.Decoder, es: seq<Entry>, k: nat)
    requires !opts.matching && AllFit(es) && Run(opts, full, decode, es).Ok?
    requires Run(opts, full, decode, es).value.offset <= k < ROM_CAPACITY
    ensures Run(opts, full, decode, es).value.data[k] == 0
  {
    RunWrites(opts, full, decode, es);
    CompactWrites(opts, full, decode, es);
    var out := Run(opts, full, decode, es).value;
    AppliedOutside(Zeros(ROM_CAPACITY), out.writes, k);
  }

  /** No two files claim overlapping virtual ranges. */
  predicate VirtDisjoint(fs: seq<Entry>) {
    forall i, j :: 0 <= i < j < |fs| ==>
      fs[i].virtEnd <= fs[j].virtStart || fs[j].virtEnd <= fs[i].virtStart
  }

  /** With non-overlapping virtual ranges, the matching layout's writes do not overlap either. */
  lemma MatchingWrites(opts: Options, full: seq<u8>, decode: Yaz0.Decoder, es: seq<Entry>)
    requires opts.matching && AllFit(es) && Run(opts, full, decode, es).Ok?
    requires VirtDisjoint(Files(es))
    ensures var out := Run(opts, full, decode, es).value;
      && |out.writes| == |Files(es)|
      && Fit(out.writes, ROM_CAPACITY) && Disjoint(out.writes)
      && forall j :: 0 <= j < |out.writes| ==>
           out.writes[j].at == Files(es)[j].virtStart && out.writes[j].End() == Files(es)[j].virtEnd
  {
    RunWrites(opts, full, decode, es);
    RunMatching(opts, full, decode, es);
    var ws, fs := Run(opts, full, decode, es).value.writes, Files(es);
    WrittenLengths(full, decode, fs, ws);
    VirtDisjointWrites(fs, ws);
  }

  /** Each write holds as many bytes as its file's virtual range, which is well ordered. */
  lemma WrittenLengths(full: seq<u8>, decode: Yaz0.Decoder, fs: seq<Entry>, ws: seq<Placement>)
    requires AllFit(fs) && |ws| == |fs|
    requires forall j :: 0 <= j < |fs| ==> IsFile(fs[j]) && fs[j].Validate().Ok?
    requires forall j :: 0 <= j < |fs| ==> FileBytes(full, decode, fs[j]) == Ok(ws[j].bytes)
    ensures forall j :: 0 <= j < |fs| ==>
      |ws[j].bytes| == fs[j].Virt().Len() && fs[j].virtStart <= fs[j].virtEnd
  {
    forall j | 0 <= j < |fs|
      ensures |ws[j].bytes| == fs[j].Virt().Len() && fs[j].virtStart <= fs[j].virtEnd
    {
      assert FileBytes(full, decode, fs[j]).Ok?;
    }
  }

  lemma VirtDisjointWrites(fs: seq<Entry>, ws: seq<Placement>)
    requires |ws| == |fs| && VirtDisjoint(fs)
    requires forall j :: 0 <= j < |fs| ==>
      ws[j].at == fs[j].virtStart && |ws[j].bytes| == fs[j].Virt().Len() && fs[j].virtStart <= fs[j].virtEnd
    ensures Disjoint(ws)
    ensures forall j :: 0 <= j < |ws| ==> ws[j].End() == fs[j].virtEnd
  {
  }

  /**
   * The matching layout: when the files' virtual ranges do not overlap, the
   * j-th file's bytes sit exactly at its virtual range.
   */
  lemma MatchingLayout(opts: Options, full: seq<u8>, decode: Yaz0.Decoder, es: seq<Entry>, j: nat)
    requires opts.matching && AllFit(es) && Run(opts, full, decode, es).Ok?
    requires VirtDisjoint(Files(es)) && j < |Files(es)|
    ensures var out := Run(opts, full, decode, es).value; var f := Files(es)[j];
      && f.Validate().Ok? && FileBytes(full, decode, f).Ok?
      && f.virtStart <= f.virtEnd <= ROM_CAPACITY
      && out.data[f.virtStart..f.virtEnd] == FileBytes(full, decode, f).value
  {
    RunWrites(opts, full, decode, es);
    MatchingWrites(opts, full, decode, es);
    var out := Run(opts, full, decode, es).value;
    var f := Files(es)[j];
    assert FileBytes(full, decode, f) == Ok(out.writes[j].bytes);
    WriteFound(out.data, Zeros(ROM_CAPACITY), out.writes, j, f.virtStart, f.Virt().Len());
  }

  /** The matching layout leaves zero every position outside all files' virtual ranges. */
  lemma MatchingGaps(opts: Options, full: seq<u8>, decode: Yaz0.Decoder, es: seq<Entry>, k: nat)
    requires opts.matching && AllFit(es) && Run(opts, full, decode, es).Ok? && k < ROM_CAPACITY
    requires forall j :: 0 <= j < |Files(es)| ==> !Files(es)[j].Virt().Contains(k)
    ensures Run(opts, full, decode, es).value.data[k] == 0
  {
    RunWrites(opts, full, decode, es);
    RunMatching(opts, full, decode, es);
    AppliedOutside(Zeros(ROM_CAPACITY), Run(opts, full, decode, es).value.writes, k);
  }
}
