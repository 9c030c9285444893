/**
 An abstract stand-in for the communication library's message writer and
 reader. A buffer holds a number of whole units; the header, the block of
 base-class fields and a nested exchange-id message are one unit each. A
 write succeeds exactly when the current buffer still has room for the unit,
 and a read succeeds exactly when the next available unit is of the kind
 asked for. The byte-level encoding is not modelled.
 */
module MessageIo {
  import opened Types

  /** One item of encoded output. */
  datatype Unit =
    | Header(directType: int16, fieldsCount: int8)
    | BaseFields(exchId: Option<ExchangeId>, restoreState: bool)
    | MessageField(value: Option<ExchangeId>)

  /** What a writer holds: field cursor, header flag, room left in the buffer, everything emitted so far. */
  datatype WriterState = WriterState(state: nat, headerWritten: bool, room: nat, out: seq<Unit>)

  /** The outcome of a write attempt and the writer afterwards. */
  datatype Written = Written(ok: bool, w: WriterState)

  /** Emits `u` into the current buffer if it has room; otherwise fails and leaves the writer alone. */
  function Emit(w: WriterState, u: Unit): Written
  {
    if w.room > 0 then Written(true, w.(room := w.room - 1, out := w.out + [u]))
    else Written(false, w)
  }

  /**
   What a reader holds: field cursor, whether the last read completed, the
   units not yet consumed, and the verdicts the library gives before and
   after a message's fields are read.
   */
  datatype ReaderState = ReaderState(state: nat, lastRead: bool, buffer: seq<Unit>, beforeOk: bool, afterOk: bool)

  /** A value read and the reader afterwards. */
  datatype Taken<T> = Taken(value: T, r: ReaderState)

  /** Reads a nested message: the next unit's value when it is one; otherwise null, with lastRead off. */
  function TakeMessage(r: ReaderState): Taken<Option<ExchangeId>>
  {
    if |r.buffer| > 0 && r.buffer[0].MessageField? then
      Taken(r.buffer[0].value, r.(lastRead := true, buffer := r.buffer[1..]))
    else
      Taken(None, r.(lastRead := false))
  }

  /** Reads the block of base-class fields when it is the next unit; otherwise nothing, with lastRead off. */
  function TakeBaseFields(r: ReaderState): Taken<Option<(Option<ExchangeId>, bool)>>
  {
    if |r.buffer| > 0 && r.buffer[0].BaseFields? then
      Taken(Some((r.buffer[0].exchId, r.buffer[0].restoreState)), r.(lastRead := true, buffer := r.buffer[1..]))
    else
      Taken(None, r.(lastRead := false))
  }

  class MessageWriter {
    var state: nat
    var headerWritten: bool
    var room: nat
    var out: seq<Unit>

    function View(): WriterState
      reads this
    {
      WriterState(state, headerWritten, room, out)
    }

    constructor ()
      ensures View() == WriterState(0, false, 0, [])
    {
      state, headerWritten, room, out := 0, false, 0, [];
    }

    /** Hands the writer a fresh buffer with room for `buf` units. */
    method SetBuffer(buf: nat)
      modifies this
      ensures View() == old(View()).(room := buf)
    {
      room := buf;
    }

    method WriteHeader(directType: int16, fieldsCount: int8) returns (ok: bool)
      modifies this
      ensures Written(ok, View()) == Emit(old(View()), Header(directType, fieldsCount))
    {
      ok := Emit1(Header(directType, fieldsCount));
    }

    method OnHeaderWritten()
      modifies this
      ensures View() == old(View()).(headerWritten := true)
    {
      headerWritten := true;
    }

    /** Writes the base-class fields as one unit. */
    method WriteBaseFields(exchId: Option<ExchangeId>, restoreState: bool) returns (ok: bool)
      modifies this
      ensures Written(ok, View()) == Emit(old(View()), BaseFields(exchId, restoreState))
    {
      ok := Emit1(BaseFields(exchId, restoreState));
    }

    method WriteMessage(value: Option<ExchangeId>) returns (ok: bool)
      modifies this
      ensures Written(ok, View()) == Emit(old(View()), MessageField(value))
    {
      ok := Emit1(MessageField(value));
    }

    method IncrementState()
      modifies this
      ensures View() == old(View()).(state := old(state) + 1)
    {
      state := state + 1;
    }

    method Emit1(u: Unit) returns (ok: bool)
      modifies this
      ensures Written(ok, View()) == Emit(old(View()), u)
    {
      ok := room > 0;
      if ok {
        room := room - 1;
        out := out + [u];
      }
    }
  }

  class MessageReader {
    var state: nat
    var lastRead: bool
    var buffer: seq<Unit>
    var beforeOk: bool
    var afterOk: bool

    function View(): ReaderState
      reads this
    {
      ReaderState(state, lastRead, buffer, beforeOk, afterOk)
    }

    constructor (beforeOk: bool, afterOk: bool)
      ensures View() == ReaderState(0, false, [], beforeOk, afterOk)
    {
      state, lastRead, buffer := 0, false, [];
      this.beforeOk, this.afterOk := beforeOk, afterOk;
    }

    /** Hands the reader the units available for this call. */
    method SetBuffer(buf: seq<Unit>)
      modifies this
      ensures View() == old(View()).(buffer := buf)
    {
      buffer := buf;
    }

    method BeforeMessageRead() returns (ok: bool)
      ensures ok == beforeOk
    {
      ok := beforeOk;
    }

    method AfterMessageRead() returns (ok: bool)
      ensures ok == afterOk
    {
      ok := afterOk;
    }

    method ReadMessage() returns (value: Option<ExchangeId>)
      modifies this
      ensures Taken(value, View()) == TakeMessage(old(View()))
    {
      if |buffer| > 0 && buffer[0].MessageField? {
        value := buffer[0].value;
        lastRead := true;
        buffer := buffer[1..];
      } else {
        value := None;
        lastRead := false;
      }
    }

    /** Reads the base-class fields as one unit. */
    method ReadBaseFields() returns (fields: Option<(Option<ExchangeId>, bool)>)
      modifies this
      ensures Taken(fields, View()) == TakeBaseFields(old(View()))
    {
      if |buffer| > 0 && buffer[0].BaseFields? {
        fields := Some((buffer[0].exchId, buffer[0].restoreState));
        lastRead := true;
        buffer := buffer[1..];
      } else {
        fields := None;
        lastRead := false;
      }
    }

    method IncrementState()
      modifies this
      ensures View() == old(View()).(state := old(state) + 1)
    {
      state := state + 1;
    }
  }
}
