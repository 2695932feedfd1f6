/** The buffered write stream of deps/bstrlib/bstraux.c:1010-1160. */
module WriteStream {
  import opened Bstrings
  import opened Seqs

  /** The core stream: it takes a block as a whole or refuses it. */
  class Sink {
    var delivered: seq<Byte>
    /** Which of the next writes are refused; the ones behind are not. */
    var refusals: seq<bool>

    constructor (refusals: seq<bool>)
      ensures delivered == [] && this.refusals == refusals
    {
      delivered, this.refusals := [], refusals;
    }

    predicate Accepting()
      reads this
    {
      forall k | 0 <= k < |refusals| :: !refusals[k]
    }

    method Write(blk: seq<Byte>) returns (n: nat)
      modifies this
      ensures n == 1 ==> delivered == old(delivered) + blk
      ensures n != 1 ==> delivered == old(delivered)
      ensures old(Accepting()) ==> n == 1 && Accepting()
    {
      n := 1;
      if refusals != [] {
        n := if refusals[0] then 0 else 1;
        refusals := refusals[1..];
      }
      if n == 1 {
        delivered := delivered + blk;
      }
    }
  }

  class BWriteStream {
    const buff: Bstring
    const sink: Sink
    var isEOF: bool
    var minBuffSz: nat
    var open: bool

    ghost predicate Valid()
      reads this, buff
    {
      buff.Valid() && 0 < minBuffSz
    }

    /** All that was accepted for writing: what the sink has, and what is buffered. */
    ghost function Log(): seq<Byte>
      reads this, buff, buff.data, sink
      requires Valid()
    {
      sink.delivered + buff.Contents()
    }

    /** `bwsOpen`. */
    constructor Open(sink: Sink)
      ensures Valid() && this.sink == sink && Log() == sink.delivered && !isEOF && open
      ensures fresh(buff) && fresh(buff.data)
    {
      this.sink, isEOF, minBuffSz, open := sink, false, 1024, true;
      buff := new Bstring.Empty();
    }

    /** internal_bwswriteout; false means that the caller returns an error. */
    method WriteOut(blk: seq<Byte>) returns (ok: bool)
      modifies `isEOF, sink
      ensures ok ==> sink.delivered == old(sink.delivered) + blk && isEOF == old(isEOF)
      ensures !ok ==> sink.delivered == old(sink.delivered) && isEOF
      ensures old(sink.Accepting()) ==> ok && sink.Accepting()
    {
      if |blk| > 0 {
        var n := sink.Write(blk);
        if 1 != n {
          isEOF := true;
          return false;
        }
      }
      ok := true;
    }

    /** Write the buffer out and empty it. */
    method Empty() returns (ok: bool)
      requires Valid()
      modifies `isEOF, buff`slen, sink
      ensures Valid() && buff.data == old(buff.data)
      ensures ok ==> sink.delivered == old(Log()) && buff.Contents() == [] && isEOF == old(isEOF)
      ensures !ok ==> sink.delivered == old(sink.delivered) && buff.Contents() == old(buff.Contents()) && isEOF
      ensures old(sink.Accepting()) ==> ok && sink.Accepting()
    {
      ok := WriteOut(buff.data[..buff.slen]);
      if ok {
        buff.Clear();
      }
    }

    /** `bwsWriteFlush`. */
    method Flush() returns (ret: int)
      requires Valid() && open
      modifies `isEOF, buff`slen, sink
      ensures Valid() && (old(isEOF) ==> isEOF) && ret == (if isEOF then BSTR_ERR else BSTR_OK)
      ensures !isEOF ==> sink.delivered == old(Log()) && buff.Contents() == []
      ensures isEOF ==> sink.delivered == old(sink.delivered) && buff.Contents() == old(buff.Contents())
      ensures old(sink.Accepting()) ==> sink.Accepting() && isEOF == old(isEOF)
    {
      if isEOF {
        return BSTR_ERR;
      }
      var ok := Empty();
      ret := if ok then BSTR_OK else BSTR_ERR;
    }

    /** `bwsBuffLength`. */
    method SetBuffLength(sz: nat) returns (oldSz: nat)
      requires Valid()
      modifies `minBuffSz
      ensures Valid() && oldSz == old(minBuffSz) && minBuffSz == if sz > 0 then sz else oldSz
    {
      oldSz := minBuffSz;
      if sz > 0 {
        minBuffSz := sz;
      }
    }

    /** `bwsWriteBstr`. */
    method WriteBstr(b: seq<Byte>) returns (ret: int)
      requires Valid() && open
      modifies `isEOF, buff, buff.data, sink
      ensures Valid() && (buff.data == old(buff.data) || fresh(buff.data))
      ensures ret == if isEOF then BSTR_ERR else BSTR_OK
      ensures old(isEOF) ==> isEOF && Log() == old(Log()) && sink.delivered == old(sink.delivered)
      ensures !isEOF ==> Log() == old(Log()) + b && buff.slen < minBuffSz
      ensures old(sink.delivered) <= sink.delivered <= old(Log()) + b
      ensures old(sink.Accepting()) ==> sink.Accepting() && isEOF == old(isEOF)
      decreases |b|
    {
      hide Bstring.Contents, Sink.Accepting;
      if isEOF {
        return BSTR_ERR;
      }
      ghost var d, held := sink.delivered, buff.Contents();
      ConcatAssoc(d, held, b);
      if |b| > 0 && buff.data.Length - buff.slen > |b| {
        buff.Cat(b);
        ret := WriteBstr([]);
        assert d + held + b + [] == d + held + b;
        return;
      }
      var l := minBuffSz - buff.slen;
      if 0 > l {
        var ok := Empty();
        if !ok {
          return BSTR_ERR;
        }
        l := minBuffSz;
        NothingBuffered(d + held);
      }
      ret := Fill(b, l);
    }

    /** The rest of `bwsWriteBstr`, with room for l bytes in front of the threshold. */
    method Fill(b: seq<Byte>, l: nat) returns (ret: int)
      requires Valid() && !isEOF && buff.slen + l == minBuffSz
      modifies `isEOF, buff, buff.data, sink
      ensures Valid() && (buff.data == old(buff.data) || fresh(buff.data))
      ensures ret == if isEOF then BSTR_ERR else BSTR_OK
      ensures !isEOF ==> Log() == old(Log()) + b && buff.slen < minBuffSz
      ensures old(sink.delivered) <= sink.delivered <= old(Log()) + b
      ensures old(sink.Accepting()) ==> sink.Accepting() && !isEOF
    {
      hide Bstring.Contents, Sink.Accepting;
      ghost var d, held := sink.delivered, buff.Contents();
      ConcatAssoc(d, held, b);
      if |b| < l {
        buff.Cat(b);
        return BSTR_OK;
      }
      Cut(d, held, b, l);
      buff.Cat(b[..l]);
      var ok := Empty();
      if !ok {
        return BSTR_ERR;
      }
      var t := b[l..];
      if |t| >= minBuffSz {
        ok := WriteOut(t);
        ret := if ok then BSTR_OK else BSTR_ERR;
        NothingBuffered(sink.delivered);
        return;
      }
      buff.Cat(t);
      ret := BSTR_OK;
    }

    /** `bwsClose`: a last flush, whatever it returns. */
    method Close()
      requires Valid() && open
      modifies this, buff`slen, sink
      ensures !open
      ensures sink.delivered == (if isEOF then old(sink.delivered) else old(Log()))
      ensures old(sink.Accepting()) ==> isEOF == old(isEOF)
    {
      var ret := Flush();
      open := false;
    }
  }

  lemma Cut(d: seq<Byte>, held: seq<Byte>, b: seq<Byte>, l: nat)
    requires l <= |b|
    ensures d + (held + b[..l]) + b[l..] == d + held + b
    ensures d <= d + held + b && d + (held + b[..l]) <= d + held + b && d <= d + (held + b[..l])
    ensures [] + b[l..] == b[l..]
  {
    assert b == b[..l] + b[l..];
  }

  lemma NothingBuffered(d: seq<Byte>)
    ensures d + [] == d
  {
  }

  // ---------------------------------------------------------------------------------------------------
  // Runs
  // ---------------------------------------------------------------------------------------------------

  datatype Op = Put(bytes: seq<Byte>) | FlushNow | SetLength(sz: nat)

  /** All bytes that a run writes, in order. */
  function Written(ops: seq<Op>): seq<Byte> {
    if ops == [] then [] else (if ops[0].Put? then ops[0].bytes else []) + Written(ops[1..])
  }

  /** Nothing is lost, repeated or reordered while the sink accepts; after a refusal it holds a prefix. */
  method Run(ws: BWriteStream, ops: seq<Op>)
    requires ws.Valid() && ws.open
    modifies ws`isEOF, ws`minBuffSz, ws.buff, ws.buff.data, ws.sink
    ensures ws.Valid() && (ws.buff.data == old(ws.buff.data) || fresh(ws.buff.data))
    ensures old(ws.isEOF) ==> ws.isEOF && ws.sink.delivered == old(ws.sink.delivered)
    ensures !ws.isEOF ==> ws.Log() == old(ws.Log()) + Written(ops)
    ensures old(ws.sink.delivered) <= ws.sink.delivered <= old(ws.Log()) + Written(ops)
    ensures old(ws.sink.Accepting()) ==> ws.sink.Accepting() && ws.isEOF == old(ws.isEOF)
    decreases |ops|
  {
    hide Bstring.Contents, Sink.Accepting;
    ghost var d, log := ws.sink.delivered, ws.Log();
    NothingBuffered(log);
    if ops == [] {
      return;
    }
    ghost var b: seq<Byte> := if ops[0].Put? then ops[0].bytes else [];
    if ops[0].Put? {
      var ret := ws.WriteBstr(ops[0].bytes);
    } else if ops[0].FlushNow? {
      var ret := ws.Flush();
      NothingBuffered(ws.sink.delivered);
    } else {
      var oldSz := ws.SetBuffLength(ops[0].sz);
    }
    ghost var d1 := ws.sink.delivered;
    assert d <= d1 <= log + b;
    Run(ws, ops[1..]);
    ConcatAssoc(log, b, Written(ops[1..]));
  }

  /** Open, run, close: an accepting sink has got exactly what was written. */
  method Session(sink: Sink, ops: seq<Op>)
    requires sink.Accepting()
    modifies sink
    ensures sink.delivered == old(sink.delivered) + Written(ops)
  {
    var ws := new BWriteStream.Open(sink);
    Run(ws, ops);
    ws.Close();
  }
}
