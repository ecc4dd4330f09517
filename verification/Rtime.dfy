/** The "rtime" compressor of JFFS2 (hostapps/mkfs.jffs2/compr_rtime.c).  Every pair of output
    bytes is a literal and the length of the run that follows it; the run repeats what followed
    the previous occurrence of the same literal.  Encoder and decoder both keep a table with
    the position behind the last occurrence of each byte value, zero at first. */
module Rtime {
  import opened Bytes

  type Table = s: seq<nat> | |s| == 256 witness seq(256, _ => 0)

  newtype Short = x: int | -0x8000 <= x < 0x8000

  const MAX_RUN := 255
  const MAX_POSITION := 0x7fff

  function Fresh(): Table {
    seq(256, _ => 0)
  }

  /** The table only points into what was already processed. */
  predicate Behind(table: Table, pos: nat) {
    forall v | 0 <= v < 256 :: table[v] <= pos
  }

  // ---- the encoder's function ----

  /** Number of bytes from `pos` on that repeat the bytes from `back` on, at most `limit`. */
  function Run(input: seq<Byte>, pos: nat, back: nat, limit: nat): (r: nat)
    requires back < pos <= |input|
    ensures r <= limit && pos + r <= |input|
    decreases limit
  {
    if limit == 0 || pos == |input| || input[pos] != input[back] then 0
    else 1 + Run(input, pos + 1, back + 1, limit - 1)
  }

  lemma RunStep(input: seq<Byte>, pos: nat, back: nat, limit: nat)
    requires back < pos <= |input|
    ensures Run(input, pos, back, limit)
            == if limit == 0 || pos == |input| || input[pos] != input[back] then 0
               else 1 + Run(input, pos + 1, back + 1, limit - 1)
  {
  }

  /** The output for the input from `pos` on, given `room` bytes for it, and where it stops. */
  function Encode(input: seq<Byte>, pos: nat, table: Table, room: nat): (r: (seq<Byte>, nat))
    requires pos <= |input| && Behind(table, pos)
    ensures |r.0| <= room && pos <= r.1 <= |input|
    ensures r.1 == |input| || room < |r.0| + 2
    decreases |input| - pos
  {
    if pos < |input| && room >= 2 then
      var v := input[pos];
      var run := Run(input, pos + 1, table[v], 255);
      var rest := Encode(input, pos + 1 + run, table[v := pos + 1], room - 2);
      ([v, run] + rest.0, rest.1)
    else ([], pos)
  }

  /** One step of the encoder: a literal and its run. */
  lemma EncodeStep(input: seq<Byte>, pos: nat, table: Table, room: nat)
    requires pos < |input| && Behind(table, pos) && room >= 2
    ensures var v := input[pos];
            var run := Run(input, pos + 1, table[v], MAX_RUN);
            var rest := Encode(input, pos + 1 + run, table[v := pos + 1], room - 2);
            Encode(input, pos, table, room) == ([v, run] + rest.0, rest.1)
  {
  }

  lemma EncodeStop(input: seq<Byte>, pos: nat, table: Table, room: nat)
    requires pos <= |input| && Behind(table, pos) && !(pos < |input| && room >= 2)
    ensures Encode(input, pos, table, room) == ([], pos)
  {
  }

  /** Up to 256 equal bytes become two. */
  lemma EqualBytesShrink(input: seq<Byte>, b: Byte, room: nat)
    requires 0 < |input| <= 256 && (forall i | 0 <= i < |input| :: input[i] == b) && room >= 2
    ensures Encode(input, 0, Fresh(), room) == ([b, |input| - 1], |input|)
  {
    EncodeStep(input, 0, Fresh(), room);
    RunOfEqual(input, 1, 0, 255);
    EncodeStop(input, |input|, Fresh()[b := 1], room - 2);
    assert [b, |input| - 1 as Byte] + [] == [b, |input| - 1];
  }

  lemma {:induction false} RunOfEqual(input: seq<Byte>, pos: nat, back: nat, limit: nat)
    requires back < pos <= |input| && (forall i, j | 0 <= i < |input| && 0 <= j < |input| :: input[i] == input[j])
    requires |input| - pos <= limit
    ensures Run(input, pos, back, limit) == |input| - pos
    decreases limit
  {
    if pos < |input| {
      RunOfEqual(input, pos + 1, back + 1, limit - 1);
    }
  }

  // ---- the decoder's function ----

  /** Appends n bytes, each a copy of the next one from `back` on; the run may overlap itself. */
  function Repeat(output: seq<Byte>, back: nat, n: nat): (r: seq<Byte>)
    requires n == 0 || back < |output|
    ensures |r| == |output| + n && output <= r
    decreases n
  {
    if n == 0 then output else Repeat(output + [output[back]], back + 1, n - 1)
  }

  /** Decodes until at least `destLen` bytes are out; returns them and the unread input.  None
      when the input ends too early. */
  function Decode(data: seq<Byte>, output: seq<Byte>, table: Table, destLen: nat): (r: Option<(seq<Byte>, seq<Byte>)>)
    requires Behind(table, |output|)
    ensures r.Some? ==> output <= r.value.0 && destLen <= |r.value.0|
    decreases destLen - |output|
  {
    if destLen <= |output| then Some((output, data))
    else if |data| < 2 then None
    else
      var literal := output + [data[0]];
      Decode(data[2..], Repeat(literal, table[data[0]], data[1]), table[data[0] := |literal|], destLen)
  }

  // ---- encoder and decoder agree ----

  /** The encoder's run is as long as it can be. */
  lemma {:induction false} RunIsLongest(input: seq<Byte>, pos: nat, back: nat, limit: nat)
    requires back < pos <= |input|
    ensures var r := Run(input, pos, back, limit);
            && input[pos..pos + r] == input[back..back + r]
            && (r == limit || pos + r == |input| || input[pos + r] != input[back + r])
    decreases limit
  {
    if limit != 0 && pos != |input| && input[pos] == input[back] {
      RunIsLongest(input, pos + 1, back + 1, limit - 1);
      var r := Run(input, pos, back, limit);
      assert input[pos..pos + r] == [input[pos]] + input[pos + 1..pos + r];
      assert input[back..back + r] == [input[back]] + input[back + 1..back + r];
    }
  }

  /** Repeating what the encoder skipped as a run restores it. */
  lemma {:induction false} RepeatRestoresRun(input: seq<Byte>, pos: nat, back: nat, limit: nat)
    requires back < pos <= |input|
    ensures Repeat(input[..pos], back, Run(input, pos, back, limit)) == input[..pos + Run(input, pos, back, limit)]
    decreases limit
  {
    if limit != 0 && pos != |input| && input[pos] == input[back] {
      assert input[..pos] + [input[back]] == input[..pos + 1];
      RepeatRestoresRun(input, pos + 1, back + 1, limit - 1);
    }
  }

  /** One step of the decoder on one pair of bytes. */
  lemma DecodeStep(v: Byte, run: Byte, rest: seq<Byte>, output: seq<Byte>, table: Table, destLen: nat)
    requires Behind(table, |output|) && |output| < destLen
    ensures Decode([v, run] + rest, output, table, destLen)
            == Decode(rest, Repeat(output + [v], table[v], run), table[v := |output| + 1], destLen)
  {
    assert ([v, run] + rest)[2..] == rest;
  }

  lemma DecodeMore(data: seq<Byte>, output: seq<Byte>, table: Table, destLen: nat)
    requires Behind(table, |output|) && |output| < destLen
    requires Decode(data, output, table, destLen).Some?
    ensures |data| >= 2
  {
  }

  lemma DecodeStop(data: seq<Byte>, output: seq<Byte>, table: Table, destLen: nat)
    requires Behind(table, |output|) && destLen <= |output|
    ensures Decode(data, output, table, destLen) == Some((output, data))
  {
  }

  lemma PairInFront(v: Byte, run: Byte, rest: seq<Byte>, tail: seq<Byte>)
    ensures [v, run] + rest + tail == [v, run] + (rest + tail)
  {
  }

  /** A decoder in step with the encoder restores exactly what the encoder consumed, and
      leaves unread whatever follows the encoder's output. */
  lemma {:induction false} DecodeEncode(input: seq<Byte>, pos: nat, table: Table, room: nat, tail: seq<Byte>)
    requires pos <= |input| && Behind(table, pos)
    ensures var (bytes, consumed) := Encode(input, pos, table, room);
            Decode(bytes + tail, input[..pos], table, consumed) == Some((input[..consumed], tail))
    decreases |input| - pos
  {
    hide Run, Repeat, Encode;
    var (bytes, consumed) := Encode(input, pos, table, room);
    if pos < |input| && room >= 2 {
      EncodeStep(input, pos, table, room);
      var v := input[pos];
      var run := Run(input, pos + 1, table[v], MAX_RUN);
      var rest := Encode(input, pos + 1 + run, table[v := pos + 1], room - 2).0;
      DecodeEncode(input, pos + 1 + run, table[v := pos + 1], room - 2, tail);
      DecodeStep(v, run, rest + tail, input[..pos], table, consumed);
      PairInFront(v, run, rest, tail);
      assert input[..pos] + [v] == input[..pos + 1];
      RepeatRestoresRun(input, pos + 1, table[v], MAX_RUN);
    } else {
      EncodeStop(input, pos, table, room);
      assert bytes + tail == tail;
    }
  }

  /** A run that ends before the output position does not overlap itself. */
  lemma {:induction false} RepeatIsCopy(output: seq<Byte>, back: nat, n: nat)
    requires back + n <= |output|
    ensures n > 0 ==> back < |output|
    ensures Repeat(output, back, n) == output + output[back..back + n]
    decreases n
  {
    if n > 0 {
      var longer := output + [output[back]];
      RepeatIsCopy(longer, back + 1, n - 1);
      assert longer[back + 1..back + n] == output[back + 1..back + n];
      assert output[back..back + n] == [output[back]] + output[back + 1..back + n];
    }
  }

  /** Decoding the encoder's output restores the prefix that the encoder consumed. */
  lemma RoundTrip(input: seq<Byte>, dstLen: nat)
    ensures var (bytes, consumed) := Encode(input, 0, Fresh(), dstLen);
            && Decode(bytes, [], Fresh(), consumed) == Some((input[..consumed], []))
            && |bytes| <= dstLen
  {
    var (bytes, consumed) := Encode(input, 0, Fresh(), dstLen);
    DecodeEncode(input, 0, Fresh(), dstLen, []);
    assert bytes + [] == bytes && input[..0] == [];
  }

  // ---- the two procedures ----

  /** The table in memory holds the positions of the model. */
  predicate Holds(positions: seq<Short>, table: Table) {
    |positions| == 256 && forall v | 0 <= v < 256 :: positions[v] as int == table[v]
  }

  lemma FreshIsBehind()
    ensures Behind(Fresh(), 0)
  {
  }

  lemma BehindNext(table: Table, v: Byte, next: nat, pos: nat)
    requires 0 < next <= pos && Behind(table, next - 1)
    ensures Behind(table[v := next], pos)
  {
  }

  lemma FreshHolds(positions: seq<Short>)
    requires |positions| == 256 && forall v | 0 <= v < 256 :: positions[v] == 0
    ensures Holds(positions, Fresh())
  {
  }

  lemma HoldsAt(positions: seq<Short>, table: Table, v: Byte)
    requires Holds(positions, table)
    ensures |positions| == 256 && positions[v] as int == table[v]
  {
  }

  lemma HoldsNext(positions: seq<Short>, table: Table, v: Byte, pos: nat)
    requires Holds(positions, table) && |positions| == 256 && pos <= MAX_POSITION
    ensures Holds(positions[v := pos as Short], table[v := pos])
  {
  }

  /** Compresses as much of dataIn[..sourceLen] as fits into dstLen bytes.  Returns -1 when the
      output is not smaller than what it stands for; the lengths are then left alone.  The
      table of positions holds 16-bit values, which bounds the input. */
  method Compress(dataIn: array<Byte>, pageOut: array<Byte>, sourceLen: nat, dstLen: nat)
    returns (ret: int, newSourceLen: nat, newDstLen: nat)
    requires dataIn != pageOut
    requires sourceLen <= dataIn.Length && sourceLen <= MAX_POSITION
    requires 2 <= dstLen <= pageOut.Length
    modifies pageOut
    ensures var (bytes, consumed) := Encode(dataIn[..sourceLen], 0, Fresh(), dstLen);
            && pageOut[..] == bytes + old(pageOut[..])[|bytes|..]
            && (if |bytes| < consumed then ret == 0 && newSourceLen == consumed && newDstLen == |bytes|
                else ret == -1 && newSourceLen == sourceLen && newDstLen == dstLen)
  {
    hide Encode, Fresh;
    var pos, outpos := CompressPairs(dataIn, pageOut, sourceLen, dstLen);
    if outpos >= pos {
      return -1, sourceLen, dstLen;
    }
    return 0, pos, outpos;
  }

  /** The compressor's loop over pairs. */
  method CompressPairs(dataIn: array<Byte>, pageOut: array<Byte>, sourceLen: nat, dstLen: nat)
    returns (pos: nat, outpos: nat)
    requires dataIn != pageOut
    requires sourceLen <= dataIn.Length && sourceLen <= MAX_POSITION
    requires 2 <= dstLen <= pageOut.Length
    modifies pageOut
    ensures var (bytes, consumed) := Encode(dataIn[..sourceLen], 0, Fresh(), dstLen);
            pos == consumed && outpos == |bytes| && pageOut[..] == bytes + old(pageOut[..])[|bytes|..]
  {
    hide Encode, Run, Holds, Behind;
    FreshIsBehind();
    ghost var input, whole := dataIn[..sourceLen], Encode(dataIn[..sourceLen], 0, Fresh(), dstLen);
    ghost var table := Fresh();
    var positions := new Short[256](_ => 0);
    FreshHolds(positions[..]);
    outpos, pos := 0, 0;
    assert pageOut[..0] + whole.0 == whole.0;
    while pos < sourceLen && outpos <= dstLen - 2
      invariant pos <= sourceLen && outpos <= dstLen
      invariant dataIn[..sourceLen] == input
      invariant Behind(table, pos) && Holds(positions[..], table)
      invariant pageOut[outpos..] == old(pageOut[..])[outpos..]
      invariant var rest := Encode(input, pos, table, dstLen - outpos);
                whole == (pageOut[..outpos] + rest.0, rest.1)
    {
      EncodeStep(input, pos, table, dstLen - outpos);
      ghost var v, page, next := input[pos], pageOut[..], pos + 1;
      pos := CompressPair(dataIn, pageOut, sourceLen, positions, pos, outpos, table);
      outpos := outpos + 2;
      BehindNext(table, v, next, pos);
      table := table[v := next];
      ghost var run, rest := pageOut[outpos - 1], Encode(input, pos, table, dstLen - outpos).0;
      TwoMoreBytes(page, outpos - 2, v, run, rest);
    }
    EncodeStop(input, pos, table, dstLen - outpos);
    assert pageOut[..outpos] + [] == pageOut[..outpos];
  }

  lemma TwoMoreBytes(page: seq<Byte>, at: nat, v: Byte, run: Byte, rest: seq<Byte>)
    requires at + 2 <= |page|
    ensures var next := page[at := v][at + 1 := run];
            next[..at + 2] + rest == page[..at] + ([v, run] + rest) && next[at + 2..] == page[at + 2..]
  {
  }

  /** One round of the compressor: a literal, and the run of bytes that repeats what followed
      its last occurrence. */
  method CompressPair(dataIn: array<Byte>, pageOut: array<Byte>, sourceLen: nat, positions: array<Short>,
                      pos0: nat, outpos: nat, ghost table: Table)
    returns (pos: nat)
    requires dataIn != pageOut && positions.Length == 256
    requires pos0 < sourceLen <= dataIn.Length && sourceLen <= MAX_POSITION && outpos + 2 <= pageOut.Length
    requires Behind(table, pos0) && Holds(positions[..], table)
    modifies pageOut, positions
    ensures var v := dataIn[pos0];
            var run := Run(dataIn[..sourceLen], pos0 + 1, table[v], MAX_RUN);
            && pos == pos0 + 1 + run
            && pageOut[..] == old(pageOut[..])[outpos := v][outpos + 1 := run]
            && Holds(positions[..], table[v := pos0 + 1])
  {
    hide Holds, Run;
    ghost var input, held := dataIn[..sourceLen], positions[..];
    var runlen: Byte := 0;
    var value := dataIn[pos0];
    pageOut[outpos] := dataIn[pos0];
    pos := pos0 + 1;
    HoldsAt(held, table, value);
    var backpos := positions[value] as int;
    positions[value] := pos as Short;
    assert positions[..] == held[value := pos as Short];
    HoldsNext(held, table, value, pos);
    ghost var run := Run(input, pos, backpos, MAX_RUN);
    ghost var page, holds := pageOut[..], positions[..];
    while backpos < pos && pos < sourceLen && dataIn[pos] == dataIn[backpos] && runlen < MAX_RUN
      invariant 0 <= backpos < pos <= sourceLen && runlen <= MAX_RUN
      invariant pos == pos0 + 1 + runlen && pageOut[..] == page && positions[..] == holds
      invariant run == runlen + Run(input, pos, backpos, MAX_RUN - runlen)
      decreases sourceLen - pos
    {
      RunStep(input, pos, backpos, MAX_RUN - runlen);
      backpos := backpos + 1;
      pos := pos + 1;
      runlen := runlen + 1;
    }
    RunStep(input, pos, backpos, MAX_RUN - runlen);
    pageOut[outpos + 1] := runlen;
  }

  /** Decompresses until destLen bytes are out.  The input must not end early, and a last run
      that overshoots destLen needs room in the output. */
  method Decompress(dataIn: array<Byte>, pageOut: array<Byte>, destLen: nat) returns (read: nat)
    requires dataIn != pageOut
    requires var d := Decode(dataIn[..], [], Fresh(), destLen);
             d.Some? && |d.value.0| <= pageOut.Length && |d.value.0| <= MAX_POSITION
    modifies pageOut
    ensures var (output, rest) := Decode(dataIn[..], [], Fresh(), destLen).value;
            && pageOut[..] == output + old(pageOut[..])[|output|..]
            && read <= dataIn.Length && dataIn[read..] == rest
  {
    hide Decode, Repeat;
    ghost var whole := Decode(dataIn[..], [], Fresh(), destLen);
    ghost var table := Fresh();
    var positions := new Short[256](_ => 0);
    var outpos, pos := 0, 0;
    assert pageOut[..outpos] == [] && dataIn[pos..] == dataIn[..];
    while outpos < destLen
      invariant outpos <= |whole.value.0| && pos <= dataIn.Length
      invariant dataIn[..] == old(dataIn[..])
      invariant Behind(table, outpos) && Holds(positions[..], table)
      invariant pageOut[outpos..] == old(pageOut[..])[outpos..]
      invariant whole == Decode(dataIn[pos..], pageOut[..outpos], table, destLen)
    {
      DecodeMore(dataIn[pos..], pageOut[..outpos], table, destLen);
      ghost var v, next := dataIn[pos], outpos + 1;
      assert dataIn[pos..] == [v, dataIn[pos + 1]] + dataIn[pos + 2..];
      DecodeStep(v, dataIn[pos + 1], dataIn[pos + 2..], pageOut[..outpos], table, destLen);
      outpos := DecompressPair(dataIn, pageOut, positions, pos, outpos, table);
      pos := pos + 2;
      table := table[v := next];
    }
    DecodeStop(dataIn[pos..], pageOut[..outpos], table, destLen);
    assert pageOut[..] == pageOut[..outpos] + pageOut[outpos..];
    read := pos;
  }

  /** One round of the decompressor: a literal, then its run, byte by byte when the run reaches
      into what it is writing and in one copy otherwise. */
  method DecompressPair(dataIn: array<Byte>, pageOut: array<Byte>, positions: array<Short>, pos: nat, outpos0: nat,
                        ghost table: Table)
    returns (outpos: nat)
    requires dataIn != pageOut && positions.Length == 256 && pos + 2 <= dataIn.Length
    requires Behind(table, outpos0) && Holds(positions[..], table)
    requires outpos0 + 1 + dataIn[pos + 1] <= pageOut.Length && outpos0 < MAX_POSITION
    modifies pageOut, positions
    ensures var v := dataIn[pos];
            && outpos == outpos0 + 1 + dataIn[pos + 1]
            && pageOut[..outpos] == Repeat(old(pageOut[..outpos0]) + [v], table[v], dataIn[pos + 1])
            && pageOut[outpos..] == old(pageOut[..])[outpos..]
            && Holds(positions[..], table[v := outpos0 + 1])
  {
    hide Repeat;
    ghost var literal := pageOut[..outpos0] + [dataIn[pos]];
    var value := dataIn[pos];
    pageOut[outpos0] := value;
    outpos := outpos0 + 1;
    var repeat := dataIn[pos + 1];
    var backoffs := positions[value] as int;
    positions[value] := outpos as Short;
    assert pageOut[..outpos] == literal;
    if repeat == 0 {
      RepeatIsCopy(literal, backoffs, 0);
    } else if backoffs + repeat >= outpos {
      CopyOverlapping(pageOut, outpos, backoffs, repeat);
    } else {
      RepeatIsCopy(literal, backoffs, repeat);
      MemCopy(pageOut, outpos, backoffs, repeat);
    }
    outpos := outpos + repeat;
  }

  /** The byte-by-byte loop of the decompressor. */
  method CopyOverlapping(a: array<Byte>, to: nat, from: nat, n: nat)
    requires from < to && to + n <= a.Length
    modifies a
    ensures a[..to + n] == Repeat(old(a[..to]), from, n)
    ensures a[to + n..] == old(a[..])[to + n..]
  {
    var outpos, backoffs, repeat := to, from, n;
    while repeat != 0
      invariant 0 <= repeat <= n && outpos == to + (n - repeat) && from <= backoffs < outpos
      invariant a[to + n..] == old(a[..])[to + n..]
      invariant Repeat(a[..outpos], backoffs, repeat) == Repeat(old(a[..to]), from, n)
      decreases repeat
    {
      ghost var sofar := a[..outpos];
      a[outpos] := a[backoffs];
      assert a[..outpos + 1] == sofar + [sofar[backoffs]];
      outpos, backoffs := outpos + 1, backoffs + 1;
      repeat := repeat - 1;
    }
  }

  /** `memcpy` within one buffer, between ranges that do not overlap. */
  method MemCopy(a: array<Byte>, to: nat, from: nat, n: nat)
    requires from + n <= to && to + n <= a.Length
    modifies a
    ensures a[..to + n] == old(a[..to]) + old(a[..to])[from..from + n]
    ensures a[to + n..] == old(a[..])[to + n..]
  {
    for i := 0 to n
      invariant a[..to] == old(a[..to]) && a[to + i..] == old(a[..])[to + i..]
      invariant a[to..to + i] == old(a[..to])[from..from + i]
    {
      assert a[from + i] == a[..to][from + i];
      a[to + i] := a[from + i];
    }
  }

  /** What the compressor accepted is restored from its output alone: the decompressor reads
      exactly the bytes that were written and reproduces the bytes that were consumed. */
  method CompressThenDecompress(dataIn: array<Byte>, packed: array<Byte>, restored: array<Byte>, sourceLen: nat,
                                dstLen: nat)
    returns (ret: int, consumed: nat, written: nat, read: nat)
    requires dataIn != packed && dataIn != restored && packed != restored
    requires sourceLen <= dataIn.Length && sourceLen <= MAX_POSITION && sourceLen <= restored.Length
    requires 2 <= dstLen <= packed.Length
    modifies packed, restored
    ensures ret == 0 <==> var (bytes, pos) := Encode(dataIn[..sourceLen], 0, Fresh(), dstLen); |bytes| < pos
    ensures ret == 0 ==> written < consumed <= sourceLen && written <= dstLen && read == written
    ensures ret == 0 ==>
              restored[..consumed] == dataIn[..consumed] && restored[consumed..] == old(restored[..])[consumed..]
  {
    hide Encode, Decode;
    ghost var input, rest := dataIn[..sourceLen], packed[..];
    ret, consumed, written := Compress(dataIn, packed, sourceLen, dstLen);
    read := 0;
    if ret == 0 {
      ghost var tail: seq<Byte> := rest[written..];
      DecodeEncode(input, 0, Fresh(), dstLen, tail);
      assert input[..0] == [] && packed[..] == Encode(input, 0, Fresh(), dstLen).0 + tail;
      read := Decompress(packed, restored, consumed);
      assert |packed[read..]| == |tail|;
    }
  }
}
