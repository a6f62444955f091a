/** The two opaque cursor shapes of the list endpoints and their decoders. */
module CursorCodec {
  import opened Wrappers
  import opened Text

  /** An instant, in nanoseconds. */
  type Instant = int

  /** The library codecs a cursor passes through: base64url and RFC 3339 time. */
  datatype Wire = Wire(
    encode64: string -> string,
    decode64: string -> Option<string>,
    formatTime: Instant -> string,
    parseTime: string -> Option<Instant>)
  {
    /** Both codecs invert, and a formatted instant is never empty and holds no "|". */
    ghost predicate Valid() {
      && (forall s :: decode64(encode64(s)) == Some(s))
      && (forall s :: s != "" ==> encode64(s) != "")
      && (forall t :: parseTime(formatTime(t)) == Some(t))
      && (forall t :: formatTime(t) != "" && '|' !in formatTime(t))
    }
  }

  datatype Cursor = Cursor(updatedAt: Instant, id: string)
  datatype NameCursor = NameCursor(sortName: string, id: string)
  datatype CursorError = NotBase64 | Malformed | BadTimestamp | TimeShaped

  function EncodeCursor(wire: Wire, updatedAt: Instant, id: string): string {
    wire.encode64(wire.formatTime(updatedAt) + "|" + id)
  }

  function DecodeCursor(wire: Wire, raw: string): Result<Cursor, CursorError> {
    match wire.decode64(raw)
    case None => Err(NotBase64)
    case Some(s) =>
      match IndexOf(s, '|')
      case None => Err(Malformed)
      case Some(i) =>
        if i == 0 || i == |s| - 1 then Err(Malformed)
        else
          match wire.parseTime(s[..i])
          case None => Err(BadTimestamp)
          case Some(t) => Ok(Cursor(t, s[i + 1..]))
  }

  function EncodeNameCursor(wire: Wire, sortName: string, id: string): string {
    wire.encode64(sortName + "|" + id)
  }

  /** What the name decoder makes of a payload. */
  function SplitName(wire: Wire, s: string): Result<NameCursor, CursorError> {
    match LastIndexOf(s, '|')
    case None => Err(Malformed)
    case Some(i) =>
      if i == 0 || i == |s| - 1 then Err(Malformed)
      else if wire.parseTime(s[..i]).Some? then Err(TimeShaped)
      else Ok(NameCursor(s[..i], s[i + 1..]))
  }

  function DecodeNameCursor(wire: Wire, raw: string): Result<NameCursor, CursorError> {
    match wire.decode64(raw)
    case None => Err(NotBase64)
    case Some(s) => SplitName(wire, s)
  }

  /** A time cursor survives the wire exactly when its id is not empty, "|" in the id or not. */
  lemma TimeCursorRoundTrip(wire: Wire, t: Instant, id: string)
    requires wire.Valid()
    ensures DecodeCursor(wire, EncodeCursor(wire, t, id)) == if id != "" then Ok(Cursor(t, id)) else Err(Malformed)
  {
    var head := wire.formatTime(t);
    FirstIndex(head, '|', id);
    var s := head + "|" + id;
    assert s[..|head|] == head && s[|head| + 1..] == id;
  }

  lemma SplitNameOfJoined(wire: Wire, name: string, id: string)
    requires '|' !in id
    ensures SplitName(wire, name + "|" + id)
            == if name == "" || id == "" then Err(Malformed)
               else if wire.parseTime(name).Some? then Err(TimeShaped)
               else Ok(NameCursor(name, id))
  {
    LastIndex(name, '|', id);
    var s := name + "|" + id;
    assert s[..|name|] == name && s[|name| + 1..] == id;
  }

  /**
   * A name cursor survives the wire exactly when name and id are not empty, the id holds no "|"
   * and the name does not read as a timestamp. The name itself may hold "|".
   */
  lemma NameCursorRoundTrip(wire: Wire, name: string, id: string)
    requires wire.Valid()
    ensures DecodeNameCursor(wire, EncodeNameCursor(wire, name, id)) == Ok(NameCursor(name, id))
            <==> name != "" && id != "" && '|' !in id && wire.parseTime(name).None?
  {
    var s := name + "|" + id;
    assert wire.decode64(EncodeNameCursor(wire, name, id)) == Some(s);
    if '|' !in id {
      SplitNameOfJoined(wire, name, id);
    }
  }

  /** The name decoder refuses every time cursor whose id holds no "|". */
  lemma NameDecoderRejectsTimeCursor(wire: Wire, t: Instant, id: string)
    requires wire.Valid() && '|' !in id
    ensures DecodeNameCursor(wire, EncodeCursor(wire, t, id)).Err?
  {
    SplitNameOfJoined(wire, wire.formatTime(t), id);
  }

  /** The part of a name a first-separator split would see. */
  function BeforeFirstBar(name: string): string {
    match IndexOf(name, '|')
    case None => name
    case Some(i) => name[..i]
  }

  /**
   * The time decoder takes a name cursor for one of its own exactly when the name begins with
   * a timestamp ended by "|" or by the end of the name, with something after that bar.
   */
  lemma TimeDecoderOnNameCursor(wire: Wire, name: string, id: string)
    requires wire.Valid()
    ensures DecodeCursor(wire, EncodeNameCursor(wire, name, id)).Ok?
            <==> BeforeFirstBar(name) != "" && wire.parseTime(BeforeFirstBar(name)).Some?
                 && ('|' in name || id != "")
  {
    var s := name + "|" + id;
    match IndexOf(name, '|')
    case None =>
      FirstIndex(name, '|', id);
      assert s[..|name|] == name;
    case Some(i) =>
      FirstIndex(name[..i], '|', name[i + 1..] + "|" + id);
      assert s == name[..i] + "|" + (name[i + 1..] + "|" + id);
      assert s[..i] == name[..i];
  }
}
