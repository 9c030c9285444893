/**
 The "send me your partition state" request of the partition exchange, and
 its resumable encoding. A write or read call either finishes the message or
 stops at a field that did not fit; the writer's or reader's cursor records
 where, so that the next call picks up at that field.

 The base class's write is one abstract step here: like every message's
 writeTo it first writes the header when it is not yet written, then its own
 fields (cursor positions 0 to 4) as one unit, ending with the cursor at 5,
 where this message's only field, `restoreExchId`, is handled. The base read
 consumes that one unit; the header is read by the transport, which uses the
 direct type to pick the message class before readFrom runs.
 */
module SingleRequest {
  import opened Types
  import opened MessageIo

  /** Cursor position of `restoreExchId`; positions 0 to 4 belong to the base class. */
  const RestoreExchIdState: nat := 5

  /** Wire type of this message class. */
  function DirectType(): int16 { 48 }

  /** Number of fields, the base class's included. */
  function FieldsCount(): int8 { 6 }

  function HandlerId(): int32 { 0 }

  /** This message reports no partition update counters, for any cache. */
  function PartitionUpdateCounters(cacheId: int32): map<int32, (int64, int64)> { map[] }

  /** The message as a value: the two base-class fields and its own field. */
  datatype MsgFields = MsgFields(exchId: Option<ExchangeId>, restoreState: bool, restoreExchId: Option<ExchangeId>)

  /** The outcome of a read attempt, the reader afterwards and the message afterwards. */
  datatype Read = Read(ok: bool, r: ReaderState, m: MsgFields)

  /** The units a complete write emits, in order: the header first. */
  function Encoding(m: MsgFields): seq<Unit>
  {
    [Header(DirectType(), FieldsCount()), BaseFields(m.exchId, m.restoreState), MessageField(m.restoreExchId)]
  }

  /** The units readFrom consumes: everything after the leading header, which the transport reads to dispatch. */
  function Payload(m: MsgFields): seq<Unit>
  {
    Encoding(m)[1..]
  }

  // ---------------------------------------------------------------------------
  // One call of writeTo / readFrom as functions of the writer or reader state

  /** Writes the header unless it is already written, and then records it as written. */
  function HeaderWrite(w: WriterState): Written
  {
    if w.headerWritten then Written(true, w)
    else
      var e := Emit(w, Header(DirectType(), FieldsCount()));
      if e.ok then Written(true, e.w.(headerWritten := true)) else e
  }

  /**
   The base-class write: the header if not yet written, then, unless the
   cursor is already at 5 or beyond, one unit that moves the cursor to 5.
   */
  function BaseWrite(w: WriterState, m: MsgFields): Written
  {
    var h := HeaderWrite(w);
    if !h.ok then h
    else if h.w.state >= RestoreExchIdState then h
    else
      var e := Emit(h.w, BaseFields(m.exchId, m.restoreState));
      if e.ok then Written(true, e.w.(state := RestoreExchIdState)) else e
  }

  /** One writeTo call with a buffer of room `buf`. */
  function WriteStep(w: WriterState, buf: nat, m: MsgFields): Written
  {
    var b := BaseWrite(w.(room := buf), m);
    if !b.ok then b
    else
      var h := HeaderWrite(b.w);
      if !h.ok then h
      else if h.w.state == RestoreExchIdState then
        var f := Emit(h.w, MessageField(m.restoreExchId));
        if f.ok then Written(true, f.w.(state := RestoreExchIdState + 1)) else f
      else h
  }

  /** The base-class read: already done from cursor 5 on, otherwise one unit that moves the cursor to 5. */
  function BaseRead(r: ReaderState, m: MsgFields): Read
  {
    if r.state >= RestoreExchIdState then Read(true, r, m)
    else
      var t := TakeBaseFields(r);
      match t.value
      case None => Read(false, t.r, m)
      case Some(f) => Read(true, t.r.(state := RestoreExchIdState), m.(exchId := f.0, restoreState := f.1))
  }

  /** One readFrom call over the units `buf`. */
  function ReadStep(r: ReaderState, buf: seq<Unit>, m: MsgFields): Read
  {
    var r0 := r.(buffer := buf);
    if !r0.beforeOk then Read(false, r0, m)
    else
      var b := BaseRead(r0, m);
      if !b.ok then b
      else if b.r.state == RestoreExchIdState then
        var t := TakeMessage(b.r);
        var m1 := b.m.(restoreExchId := t.value);
        if !t.r.lastRead then Read(false, t.r, m1)
        else Read(t.r.afterOk, t.r.(state := RestoreExchIdState + 1), m1)
      else Read(b.r.afterOk, b.r, b.m)
  }

  // ---------------------------------------------------------------------------
  // The message object

  class GridDhtPartitionsSingleRequest {
    /** Base-class field: the exchange this message belongs to. */
    var exchId: Option<ExchangeId>
    /** Base-class field: whether this is a restore-state probe. */
    var restoreState: bool
    var restoreExchId: Option<ExchangeId>

    function Fields(): MsgFields
      reads this
    {
      MsgFields(exchId, restoreState, restoreExchId)
    }

    /** The no-argument constructor used before reading a message in. */
    constructor ()
      ensures Fields() == MsgFields(None, false, None)
    {
      exchId, restoreState, restoreExchId := None, false, None;
    }

    constructor WithExchangeId(id: Option<ExchangeId>)
      ensures Fields() == MsgFields(id, false, None)
    {
      exchId, restoreState, restoreExchId := id, false, None;
    }

    /** A restore-state probe that travels under `msgExchId` and asks about the exchange `restoreExchId`. */
    static method RestoreStateRequest(msgExchId: Option<ExchangeId>, restoreExchId: Option<ExchangeId>)
      returns (msg: GridDhtPartitionsSingleRequest)
      ensures fresh(msg)
      ensures msg.Fields() == MsgFields(msgExchId, true, restoreExchId)
    {
      msg := new GridDhtPartitionsSingleRequest.WithExchangeId(msgExchId);
      msg.SetRestoreState(true);
      msg.SetRestoreExchangeId(restoreExchId);
    }

    /** The base-class setter. */
    method SetRestoreState(restoreState: bool)
      modifies this`restoreState
      ensures Fields() == old(Fields()).(restoreState := restoreState)
    {
      this.restoreState := restoreState;
    }

    method RestoreExchangeId() returns (r: Option<ExchangeId>)
      ensures r == restoreExchId
    {
      r := restoreExchId;
    }

    method SetRestoreExchangeId(restoreExchId: Option<ExchangeId>)
      modifies this`restoreExchId
      ensures Fields() == old(Fields()).(restoreExchId := restoreExchId)
    {
      this.restoreExchId := restoreExchId;
    }

    /** The base-class write: the header, then the base-class fields collapsed into one unit. */
    method SuperWriteTo(writer: MessageWriter) returns (ok: bool)
      modifies writer
      ensures Written(ok, writer.View()) == BaseWrite(old(writer.View()), Fields())
    {
      if !writer.headerWritten {
        var headerOk := writer.WriteHeader(DirectType(), FieldsCount());
        if !headerOk {
          return false;
        }
        writer.OnHeaderWritten();
      }
      if writer.state >= RestoreExchIdState {
        return true;
      }
      ok := writer.WriteBaseFields(exchId, restoreState);
      if ok {
        writer.state := RestoreExchIdState;
      }
    }

    method WriteTo(buf: nat, writer: MessageWriter) returns (ok: bool)
      modifies writer
      ensures Written(ok, writer.View()) == WriteStep(old(writer.View()), buf, Fields())
    {
      writer.SetBuffer(buf);
      var baseOk := SuperWriteTo(writer);
      if !baseOk {
        return false;
      }
      if !writer.headerWritten {
        var headerOk := writer.WriteHeader(DirectType(), FieldsCount());
        if !headerOk {
          return false;
        }
        writer.OnHeaderWritten();
      }
      if writer.state == RestoreExchIdState {
        var fieldOk := writer.WriteMessage(restoreExchId);
        if !fieldOk {
          return false;
        }
        writer.IncrementState();
      }
      return true;
    }

    /** The base-class read, collapsed into one step. */
    method SuperReadFrom(reader: MessageReader) returns (ok: bool)
      modifies this, reader
      ensures Read(ok, reader.View(), Fields()) == BaseRead(old(reader.View()), old(Fields()))
    {
      if reader.state >= RestoreExchIdState {
        return true;
      }
      var fields := reader.ReadBaseFields();
      if fields.None? {
        return false;
      }
      exchId, restoreState := fields.value.0, fields.value.1;
      reader.state := RestoreExchIdState;
      return true;
    }

    method ReadFrom(buf: seq<Unit>, reader: MessageReader) returns (ok: bool)
      modifies this, reader
      ensures Read(ok, reader.View(), Fields()) == ReadStep(old(reader.View()), buf, old(Fields()))
    {
      reader.SetBuffer(buf);
      var ready := reader.BeforeMessageRead();
      if !ready {
        return false;
      }
      var baseOk := SuperReadFrom(reader);
      if !baseOk {
        return false;
      }
      if reader.state == RestoreExchIdState {
        restoreExchId := reader.ReadMessage();
        if !reader.lastRead {
          return false;
        }
        reader.IncrementState();
      }
      ok := reader.AfterMessageRead();
    }
  }

  // ---------------------------------------------------------------------------
  // Constants

  /** The wire metadata; the own field's cursor position is the last field index. */
  lemma MessageConstants()
    ensures DirectType() == 48 && FieldsCount() == 6
    ensures RestoreExchIdState == FieldsCount() as int - 1
  {
  }

  /** The handler id is 0 and no cache ever gets update counters from this message. */
  lemma NoUpdateCounters(cacheId: int32)
    ensures HandlerId() == 0
    ensures PartitionUpdateCounters(cacheId) == map[]
  {
  }

  // ---------------------------------------------------------------------------
  // Properties of one writeTo call

  /** The units still owed by a writer in state `w`, in the order a call emits them. */
  function PendingUnits(w: WriterState, m: MsgFields): seq<Unit>
  {
    (if w.headerWritten then [] else [Header(DirectType(), FieldsCount())]) +
    (if w.state < RestoreExchIdState then [BaseFields(m.exchId, m.restoreState)] else []) +
    (if w.state <= RestoreExchIdState then [MessageField(m.restoreExchId)] else [])
  }

  /**
   A call emits the longest prefix of the owed units that fits in its buffer,
   and completes exactly when all of them fit: nothing already written is
   written again and nothing is skipped.
   */
  lemma WriteStepEmitsPendingPrefix(w: WriterState, buf: nat, m: MsgFields)
    ensures var p := PendingUnits(w, m);
            var n := if buf < |p| then buf else |p|;
            var r := WriteStep(w, buf, m);
            && (r.ok <==> |p| <= buf)
            && r.w.out == w.out + p[..n]
            && r.w.room == buf - n
            && (r.w.headerWritten <==> w.headerWritten || Header(DirectType(), FieldsCount()) in p[..n])
            && r.w.state == (if |p| <= buf && w.state <= RestoreExchIdState then RestoreExchIdState + 1
                             else if w.state < RestoreExchIdState && BaseFields(m.exchId, m.restoreState) in p[..n] then RestoreExchIdState
                             else w.state)
  {
    var p := PendingUnits(w, m);
    var base, hdr, fld := BaseFields(m.exchId, m.restoreState), Header(DirectType(), FieldsCount()), MessageField(m.restoreExchId);
    if w.state < RestoreExchIdState {
      assert p == if w.headerWritten then [base, fld] else [hdr, base, fld];
      if buf == 0 {
        assert p[..0] == [];
      } else if buf == 1 {
        assert p[..1] == [p[0]];
      } else if buf == 2 && !w.headerWritten {
        assert p[..2] == [hdr, base];
      } else {
        assert p[..|p|] == p;
      }
    } else if w.state == RestoreExchIdState {
      assert p == if w.headerWritten then [fld] else [hdr, fld];
      if buf == 0 {
        assert p[..0] == [];
      } else if buf == 1 && !w.headerWritten {
        assert p[..1] == [hdr];
      } else {
        assert p[..|p|] == p;
      }
    } else {
      assert p == if w.headerWritten then [] else [hdr];
      if buf == 0 {
        assert p[..0] == [];
      } else {
        assert p[..|p|] == p;
      }
    }
  }

  /**
   Once the base-class write has succeeded the header is written, so the
   header block of this class's own writeTo never emits anything.
   */
  lemma SubclassHeaderBlockIsNoOp(w: WriterState, buf: nat, m: MsgFields)
    ensures var b := BaseWrite(w.(room := buf), m);
            b.ok ==> b.w.headerWritten && HeaderWrite(b.w) == b
  {
  }

  /**
   While the base-class write cannot complete, the call returns the base
   write's failure as it stands: false, the cursor unchanged, and the own
   field never emitted (the header may already have gone out).
   */
  lemma WriteStopsWhenBaseIncomplete(w: WriterState, buf: nat, m: MsgFields)
    requires !BaseWrite(w.(room := buf), m).ok
    ensures var r := WriteStep(w, buf, m);
            && r == BaseWrite(w.(room := buf), m)
            && !r.ok
            && r.w.state == w.state
            && MessageField(m.restoreExchId) !in r.w.out[|w.out|..]
  {
    WriteStepEmitsPendingPrefix(w, buf, m);
  }

  /** The owed units hold the header once if it is not yet written, and otherwise not at all. */
  lemma PendingHeaderCount(w: WriterState, m: MsgFields)
    ensures multiset(PendingUnits(w, m))[Header(DirectType(), FieldsCount())] == if w.headerWritten then 0 else 1
  {
  }

  /** The header is emitted only while it is not yet written, at most once per call, and is written once a call completes. */
  lemma HeaderWrittenOnce(w: WriterState, buf: nat, m: MsgFields)
    ensures var r := WriteStep(w, buf, m);
            && w.out <= r.w.out
            && (r.ok ==> r.w.headerWritten)
            && (w.headerWritten ==> r.w.headerWritten && Header(DirectType(), FieldsCount()) !in r.w.out[|w.out|..])
            && multiset(r.w.out[|w.out|..])[Header(DirectType(), FieldsCount())] <= 1
  {
    WriteStepEmitsPendingPrefix(w, buf, m);
    PendingHeaderCount(w, m);
    var p := PendingUnits(w, m);
    var n := if buf < |p| then buf else |p|;
    var r := WriteStep(w, buf, m);
    assert r.w.out[|w.out|..] == p[..n];
    PrefixCount(p, n, Header(DirectType(), FieldsCount()));
  }

  /** A prefix holds no more copies of `x` than the whole sequence. */
  lemma PrefixCount<T>(p: seq<T>, n: nat, x: T)
    requires n <= |p|
    ensures multiset(p[..n])[x] <= multiset(p)[x]
  {
    assert p == p[..n] + p[n..];
    assert multiset(p) == multiset(p[..n]) + multiset(p[n..]);
  }

  /** At cursor 5 a call writes the own field and moves to 6 when it fits, and otherwise fails at 5 having written nothing. */
  lemma WriteAtRestoreExchId(w: WriterState, buf: nat, m: MsgFields)
    requires w.state == RestoreExchIdState && w.headerWritten
    ensures buf > 0 ==>
              WriteStep(w, buf, m) ==
              Written(true, w.(state := RestoreExchIdState + 1, room := buf - 1, out := w.out + [MessageField(m.restoreExchId)]))
    ensures buf == 0 ==> WriteStep(w, buf, m) == Written(false, w.(room := 0))
  {
  }

  /** Past cursor 5 a call writes nothing and reports completion. */
  lemma WritePastRestoreExchId(w: WriterState, buf: nat, m: MsgFields)
    requires w.state > RestoreExchIdState && w.headerWritten
    ensures WriteStep(w, buf, m) == Written(true, w.(room := buf))
  {
  }

  // ---------------------------------------------------------------------------
  // Properties of one readFrom call

  /** A reader that is not ready for the message makes the call fail with nothing read. */
  lemma ReadStopsWhenNotReady(r: ReaderState, buf: seq<Unit>, m: MsgFields)
    requires !r.beforeOk
    ensures ReadStep(r, buf, m) == Read(false, r.(buffer := buf), m)
  {
  }

  /** While the base-class read cannot complete, the call fails with the cursor and the message unchanged. */
  lemma ReadStopsWhenBaseIncomplete(r: ReaderState, buf: seq<Unit>, m: MsgFields)
    requires r.beforeOk && r.state < RestoreExchIdState
    requires buf == [] || !buf[0].BaseFields?
    ensures ReadStep(r, buf, m) == Read(false, r.(buffer := buf, lastRead := false), m)
  {
  }

  /**
   At cursor 5 a complete read stores the field, moves to 6 and returns the
   library's final verdict; an incomplete one stores null, fails and stays at 5.
   */
  lemma ReadAtRestoreExchId(r: ReaderState, buf: seq<Unit>, m: MsgFields)
    requires r.beforeOk && r.state == RestoreExchIdState
    ensures buf != [] && buf[0].MessageField? ==>
              ReadStep(r, buf, m) ==
              Read(r.afterOk, r.(state := RestoreExchIdState + 1, lastRead := true, buffer := buf[1..]),
                   m.(restoreExchId := buf[0].value))
    ensures buf == [] || !buf[0].MessageField? ==>
              ReadStep(r, buf, m) ==
              Read(false, r.(buffer := buf, lastRead := false), m.(restoreExchId := None))
  {
  }

  /** Past cursor 5 a call reads nothing and returns the library's final verdict. */
  lemma ReadPastRestoreExchId(r: ReaderState, buf: seq<Unit>, m: MsgFields)
    requires r.beforeOk && r.state > RestoreExchIdState
    ensures ReadStep(r, buf, m) == Read(r.afterOk, r.(buffer := buf), m)
  {
  }

  // ---------------------------------------------------------------------------
  // Repeated partial calls

  /** writeTo called once per buffer of `bufs`, stopping at the first call that completes. */
  function WriteAll(w: WriterState, bufs: seq<nat>, m: MsgFields): Written
    decreases |bufs|
  {
    if bufs == [] then Written(false, w)
    else
      var s := WriteStep(w, bufs[0], m);
      if s.ok then s else WriteAll(s.w, bufs[1..], m)
  }

  /** How many units of Encoding(m) a writer has emitted, read off its cursor and header flag. */
  function Stage(w: WriterState): nat
  {
    if w.state < RestoreExchIdState then (if w.headerWritten then 1 else 0)
    else if w.state == RestoreExchIdState then 2
    else 3
  }

  /** A writer that started at cursor 0 with no header, having emitted `o` before this message. */
  ghost predicate WriteProgress(w: WriterState, o: seq<Unit>, m: MsgFields)
  {
    w.state <= RestoreExchIdState + 1 &&
    (w.state >= RestoreExchIdState ==> w.headerWritten) &&
    w.out == o + Encoding(m)[..Stage(w)]
  }

  /** A call never goes back, keeps the output a prefix of the encoding, and completes exactly at its end. */
  lemma WriteStepProgress(w: WriterState, buf: nat, m: MsgFields, o: seq<Unit>)
    requires WriteProgress(w, o, m)
    ensures var r := WriteStep(w, buf, m);
            && WriteProgress(r.w, o, m)
            && Stage(w) <= Stage(r.w)
            && (r.ok <==> Stage(r.w) == 3)
            && (buf >= |Encoding(m)| ==> r.ok)
  {
  }

  /**
   However the output is split over buffers, a write that completes has
   emitted Encoding(m) exactly once, and its cursor stands at FieldsCount().
   */
  lemma {:induction false} WriteAllEmitsEncodingOnce(w: WriterState, bufs: seq<nat>, m: MsgFields, o: seq<Unit>)
    requires WriteProgress(w, o, m)
    ensures var r := WriteAll(w, bufs, m);
            && WriteProgress(r.w, o, m)
            && (r.ok ==> r.w.out == o + Encoding(m) && r.w.state == FieldsCount() as int)
    decreases |bufs|
  {
    if bufs != [] {
      var s := WriteStep(w, bufs[0], m);
      WriteStepProgress(w, bufs[0], m, o);
      if !s.ok {
        WriteAllEmitsEncodingOnce(s.w, bufs[1..], m, o);
      } else {
        assert Encoding(m)[..3] == Encoding(m);
      }
    }
  }

  /** A write completes as soon as one buffer has room for the whole message. */
  lemma {:induction false} WriteAllCompletes(w: WriterState, bufs: seq<nat>, m: MsgFields, o: seq<Unit>)
    requires WriteProgress(w, o, m)
    requires exists i :: 0 <= i < |bufs| && bufs[i] >= |Encoding(m)|
    ensures WriteAll(w, bufs, m).ok
    decreases |bufs|
  {
    var i :| 0 <= i < |bufs| && bufs[i] >= |Encoding(m)|;
    var s := WriteStep(w, bufs[0], m);
    WriteStepProgress(w, bufs[0], m, o);
    if !s.ok {
      assert i > 0;
      assert bufs[1..][i - 1] == bufs[i];
      WriteAllCompletes(s.w, bufs[1..], m, o);
    }
  }

  function Concat(cs: seq<seq<Unit>>): seq<Unit>
    decreases |cs|
  {
    if cs == [] then [] else cs[0] + Concat(cs[1..])
  }

  /**
   readFrom called once per chunk of `cs`, each call getting the units left
   over by the previous one followed by the chunk, stopping at the first call
   that completes.
   */
  function ReadAll(r: ReaderState, cs: seq<seq<Unit>>, m: MsgFields): Read
    decreases |cs|
  {
    if cs == [] then Read(false, r, m)
    else
      var s := ReadStep(r, r.buffer + cs[0], m);
      if s.ok then s else ReadAll(s.r, cs[1..], s.m)
  }

  /**
   A reader whose library calls succeed, with nothing buffered, that still has
   to receive `rest` of Payload(orig) and has already stored what came before.
   */
  ghost predicate ReadProgress(r: ReaderState, cur: MsgFields, orig: MsgFields, rest: seq<Unit>)
  {
    r.beforeOk && r.afterOk && r.buffer == [] &&
    ((r.state < RestoreExchIdState && rest == Payload(orig)) ||
     (r.state == RestoreExchIdState && rest == Payload(orig)[1..] &&
      cur.exchId == orig.exchId && cur.restoreState == orig.restoreState))
  }

  /**
   One read over a chunk that starts the rest of the payload either completes
   the message, when the chunk is all of that rest, or consumes the chunk and
   leaves a reader in progress on what remains.
   */
  lemma ReadStepOnChunk(r: ReaderState, c: seq<Unit>, cur: MsgFields, orig: MsgFields, rest: seq<Unit>)
    requires ReadProgress(r, cur, orig, rest)
    requires |c| <= |rest| && c == rest[..|c|]
    ensures var s := ReadStep(r, c, cur);
            && (s.ok <==> |c| == |rest|)
            && (s.ok ==> s == Read(true, ReaderState(RestoreExchIdState + 1, true, [], true, true), orig))
            && (!s.ok ==> ReadProgress(s.r, s.m, orig, rest[|c|..]))
  {
  }

  /**
   However the payload is split into chunks, repeated reads end with the
   message equal to `orig` and the reader at cursor 6 with nothing left over:
   the same outcome as one read of the whole payload.
   */
  lemma {:induction false} ReadAllDecodes(r: ReaderState, cs: seq<seq<Unit>>, cur: MsgFields, orig: MsgFields)
    requires ReadProgress(r, cur, orig, Concat(cs))
    ensures ReadAll(r, cs, cur) == Read(true, ReaderState(RestoreExchIdState + 1, true, [], true, true), orig)
    decreases |cs|
  {
    var rest := Concat(cs);
    var c := cs[0];
    assert rest == c + Concat(cs[1..]);
    assert c == rest[..|c|];
    assert r.buffer + c == c;
    ReadStepOnChunk(r, c, cur, orig, rest);
    var s := ReadStep(r, c, cur);
    if !s.ok {
      assert Concat(cs[1..]) == rest[|c|..];
      ReadAllDecodes(s.r, cs[1..], s.m, orig);
    }
  }

  /**
   A completed write, over any buffers, starts with the header carrying the
   direct type and fields count, so the transport can read it to dispatch;
   what follows it is exactly the payload readFrom consumes.
   */
  lemma WrittenStartsWithHeader(m: MsgFields, bufs: seq<nat>)
    requires WriteAll(WriterState(0, false, 0, []), bufs, m).ok
    ensures var out := WriteAll(WriterState(0, false, 0, []), bufs, m).w.out;
            out == [Header(48, 6)] + Payload(m)
  {
    WriteAllEmitsEncodingOnce(WriterState(0, false, 0, []), bufs, m, []);
    assert [] + Encoding(m) == [Header(48, 6)] + Payload(m);
  }

  /**
   Round trip: a fresh writer's completed output, split over any buffers, is
   the header the transport reads followed by chunks `cs`, in any split; a
   fresh message reading those chunks gets back the written fields, with the
   same outcome as reading the whole payload in one call.
   */
  lemma RoundTrip(m: MsgFields, bufs: seq<nat>, cs: seq<seq<Unit>>, cur: MsgFields)
    requires WriteAll(WriterState(0, false, 0, []), bufs, m).ok
    requires WriteAll(WriterState(0, false, 0, []), bufs, m).w.out == [Header(DirectType(), FieldsCount())] + Concat(cs)
    ensures ReadAll(ReaderState(0, false, [], true, true), cs, cur).ok
    ensures ReadAll(ReaderState(0, false, [], true, true), cs, cur).m == m
    ensures ReadAll(ReaderState(0, false, [], true, true), cs, cur) == ReadStep(ReaderState(0, false, [], true, true), Payload(m), cur)
  {
    WrittenStartsWithHeader(m, bufs);
    var out := WriteAll(WriterState(0, false, 0, []), bufs, m).w.out;
    assert Concat(cs) == out[1..] == Payload(m);
    ReadAllDecodes(ReaderState(0, false, [], true, true), cs, cur, m);
  }
}
