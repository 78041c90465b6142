/**
 * Arduino serial framing. A message travels as '{' type '|' data '}'
 * followed by a newline. The reader pulls one byte at a time from the
 * serial port and stores it in caller-supplied char buffers; the model
 * follows the C code as written, including the check in the data loop
 * that consults the type buffer at the data index, and the reads and
 * writes past a buffer's end that some inputs lead to (Undefined).
 */
module ArdComm {
  import opened Wrappers
  import opened LibC
  import Logging

  /** START_FRAME, TYPE_DIVIDER, END_FRAME and the newline sent after a frame. */
  const StartFrame: Byte := 0x7B
  const TypeDivider: Byte := 0x7C
  const EndFrame: Byte := 0x7D
  const Newline: Byte := 0x0A
  const Nul: Byte := 0

  /** "ID", "ESTABLISHED", "READY" and "NULL" in ASCII. */
  const IdType: seq<Byte> := [0x49, 0x44]
  const Established: seq<Byte> := [0x45, 0x53, 0x54, 0x41, 0x42, 0x4C, 0x49, 0x53, 0x48, 0x45, 0x44]
  const Ready: seq<Byte> := [0x52, 0x45, 0x41, 0x44, 0x59]
  const NullData: seq<Byte> := [0x4E, 0x55, 0x4C, 0x4C]

  /** The message-type buffer of ArdComm_getId: char type[16], zero-filled. */
  const IdTypeBuffer: seq<Byte> := Zeros(16)

  /** The C return value of a call, or Undefined where the C code reads or writes past a buffer's end. */
  datatype Result = Code(code: int) | Undefined

  /** The bytes of a frame as ArdComm_sendMessage writes them. */
  function Frame(msgtype: seq<Byte>, data: seq<Byte>): (f: seq<Byte>)
    ensures |f| == |msgtype| + |data| + 4
  {
    [StartFrame] + msgtype + [TypeDivider] + data + [EndFrame, Newline]
  }

  /** strlen over a byte buffer: the index of the first NUL, or the whole buffer. */
  function StrLen(buf: seq<Byte>): (n: nat)
    ensures n <= |buf| && Nul !in buf[..n]
    ensures n < |buf| <==> Nul in buf
    ensures n < |buf| ==> buf[n] == Nul
  {
    if buf == [] || buf[0] == Nul then 0
    else
      var n := 1 + StrLen(buf[1..]);
      assert buf[..n] == [buf[0]] + buf[1..][..n - 1];
      n
  }

  /** The C string a buffer holds. */
  function CString(buf: seq<Byte>): (s: seq<Byte>)
  {
    buf[..StrLen(buf)]
  }

  /** A NUL-free byte string, once terminated, reads back as itself whatever follows. */
  lemma CStringOfTerminated(s: seq<Byte>, tail: seq<Byte>)
    requires Nul !in s
    ensures CString(s + [Nul] + tail) == s
  {
    var buf := s + [Nul] + tail;
    assert buf[|s|] == Nul;
    assert buf[..|s|] == s;
  }

  /** Serial_getByte's result for the byte at p: the byte, or -1 once the stream is exhausted. */
  function ByteAt(input: seq<Byte>, p: nat): (b: int)
    ensures -1 <= b < 256
    ensures b == -1 <==> p >= |input|
  {
    if p < |input| then input[p] as int else -1
  }

  /** The value a char cell holds after storing Serial_getByte's int there: -1 becomes 0xFF. */
  function Stored(b: int): (c: Byte)
    requires -1 <= b < 256
    ensures b != -1 ==> c as int == b
  {
    if b == -1 then 0xFF else b as Byte
  }

  /** The i-th char stored by a loop that starts reading at position p. */
  function Cell(input: seq<Byte>, p: nat, i: nat): (c: Byte)
    ensures p + i < |input| ==> c == input[p + i]
    ensures p + i >= |input| ==> c == 0xFF
  {
    Stored(ByteAt(input, p + i))
  }

  /** The first n chars stored by a loop that starts reading at position p. */
  function Cells(input: seq<Byte>, p: nat, n: nat): (cs: seq<Byte>)
    ensures |cs| == n && forall i :: 0 <= i < n ==> cs[i] == Cell(input, p, i)
  {
    seq(n, i requires 0 <= i < n => Cell(input, p, i))
  }

  /** Where the stream stands after n reads from p: a read at the end does not advance. */
  function Advance(input: seq<Byte>, p: nat, n: nat): (q: nat)
    requires p <= |input|
    ensures p <= q <= |input|
  {
    if p + n <= |input| then p + n else |input|
  }

  /** The frame-hunting loop: the position just past the first '{' at or after p. */
  function SkipTo(input: seq<Byte>, p: nat): (r: Option<nat>)
    decreases |input| - p
    ensures r.Some? ==> p < r.value <= |input| && input[r.value - 1] == StartFrame
    ensures r.Some? ==> forall q :: p <= q < r.value - 1 ==> input[q] != StartFrame
    ensures r.None? <==> forall q :: p <= q < |input| ==> input[q] != StartFrame
  {
    if p >= |input| then None
    else if input[p] == StartFrame then Some(p + 1)
    else SkipTo(input, p + 1)
  }

  /** A char the type loop stores and goes on past. */
  predicate PlainType(c: Byte) {
    c != TypeDivider && c != EndFrame && c != StartFrame
  }

  /** A type-buffer char the data loop's check lets through. */
  predicate PassesCheck(c: Byte) {
    c != TypeDivider && c != StartFrame
  }

  /** How the type loop ends: at a '|' after len chars, at a brace, or past the buffer. */
  datatype TypeEnd = Divided(len: nat) | Rejected(at: nat) | TypeOverrun

  /** The type loop from counter k, for a buffer of cap chars. */
  function TypeField(input: seq<Byte>, p: nat, cap: nat, k: nat): (r: TypeEnd)
    requires k <= cap
    decreases cap - k
    ensures r.Divided? ==> k <= r.len < cap && Cell(input, p, r.len) == TypeDivider
    ensures r.Divided? ==> forall i :: k <= i < r.len ==> PlainType(Cell(input, p, i))
    ensures r.Rejected? ==> k <= r.at < cap && !PlainType(Cell(input, p, r.at)) && Cell(input, p, r.at) != TypeDivider
    ensures r.Rejected? ==> forall i :: k <= i < r.at ==> PlainType(Cell(input, p, i))
    ensures r.TypeOverrun? ==> forall i :: k <= i < cap ==> PlainType(Cell(input, p, i))
  {
    if k == cap then TypeOverrun
    else if Cell(input, p, k) == TypeDivider then Divided(k)
    else if Cell(input, p, k) == EndFrame || Cell(input, p, k) == StartFrame then Rejected(k)
    else TypeField(input, p, cap, k + 1)
  }

  /** How the data loop ends: at a '}' after len chars, at the type-buffer check, or past a buffer. */
  datatype DataEnd = Ended(len: nat) | DataRejected(at: nat) | DataOverrun

  /**
   * The data loop from counter j, writing into a buffer of cap chars while
   * checking the type buffer t at the same index.
   */
  function DataField(input: seq<Byte>, p: nat, t: seq<Byte>, cap: nat, j: nat): (r: DataEnd)
    requires j <= cap
    decreases cap - j
    ensures r.Ended? ==> j <= r.len < cap && Cell(input, p, r.len) == EndFrame
    ensures r.Ended? ==> forall i :: j <= i < r.len ==> Cell(input, p, i) != EndFrame && i < |t| && PassesCheck(t[i])
    ensures r.DataRejected? ==> j <= r.at < cap && r.at < |t| && !PassesCheck(t[r.at]) && Cell(input, p, r.at) != EndFrame
    ensures r.DataRejected? ==> forall i :: j <= i < r.at ==> Cell(input, p, i) != EndFrame && PassesCheck(t[i])
  {
    if j == cap then DataOverrun
    else if Cell(input, p, j) == EndFrame then Ended(j)
    else if j >= |t| then DataOverrun
    else if !PassesCheck(t[j]) then DataRejected(j)
    else DataField(input, p, t, cap, j + 1)
  }

  /** The outcome of ArdComm_getMessage: the return value, the chars written into each buffer from index 0, and the stream position. */
  datatype Reception = Reception(status: Result, typeCells: seq<Byte>, dataCells: seq<Byte>, pos: nat)

  /**
   * ArdComm_getMessage on the stream from pos, with type buffer t and a
   * data buffer of dcap chars.
   */
  function Receive(input: seq<Byte>, pos: nat, t: seq<Byte>, dcap: nat): (r: Reception)
    requires pos <= |input|
    ensures |r.typeCells| <= |t| && |r.dataCells| <= dcap && r.pos <= |input|
    ensures r.status == Code(1) ==> Nul in r.typeCells && r.dataCells != []
    ensures r.status == Code(1) ==>
      r.typeCells[|r.typeCells| - 1] == Nul && r.dataCells[|r.dataCells| - 1] == Nul
  {
    match SkipTo(input, pos)
    case None => Reception(Code(-1), [], [], |input|)
    case Some(p) =>
      match TypeField(input, p, |t|, 0)
      case TypeOverrun => Reception(Undefined, [], [], p)
      case Rejected(n) => Reception(Code(-1), Cells(input, p, n + 1), [], Advance(input, p, n + 1))
      case Divided(n) =>
        var typeCells := Cells(input, p, n) + [Nul];
        var p2 := Advance(input, p, n + 1);
        match DataField(input, p2, typeCells + t[n + 1..], dcap, 0)
        case DataOverrun => Reception(Undefined, [], [], p2)
        case DataRejected(m) => Reception(Code(-1), typeCells, Cells(input, p2, m + 1), Advance(input, p2, m + 1))
        case Ended(m) => Reception(Code(1), typeCells, Cells(input, p2, m) + [Nul], Advance(input, p2, m + 1))
  }

  /** The type loop passes over plain chars: from k it behaves as from n. */
  lemma {:induction false} TypeFieldSkips(input: seq<Byte>, p: nat, cap: nat, k: nat, n: nat)
    requires k <= n <= cap
    requires forall i :: k <= i < n ==> PlainType(Cell(input, p, i))
    ensures TypeField(input, p, cap, k) == TypeField(input, p, cap, n)
    decreases n - k
  {
    if k < n {
      TypeFieldSkips(input, p, cap, k + 1, n);
    }
  }

  /** The data loop passes over chars that are not '}' while the type buffer's check passes. */
  lemma {:induction false} DataFieldSkips(input: seq<Byte>, p: nat, t: seq<Byte>, cap: nat, j: nat, n: nat)
    requires j <= n <= cap && n <= |t|
    requires forall i :: j <= i < n ==> Cell(input, p, i) != EndFrame && PassesCheck(t[i])
    ensures DataField(input, p, t, cap, j) == DataField(input, p, t, cap, n)
    decreases n - j
  {
    if j < n {
      DataFieldSkips(input, p, t, cap, j + 1, n);
    }
  }

  /** The stream with the frame for msgtype and data after junk that holds no '{'. */
  function Framed(junk: seq<Byte>, msgtype: seq<Byte>, data: seq<Byte>, rest: seq<Byte>): seq<Byte> {
    junk + Frame(msgtype, data) + rest
  }

  /** Reading the frame's bytes: the type starts after junk and '{', the data after the '|'. */
  lemma FramedCells(junk: seq<Byte>, msgtype: seq<Byte>, data: seq<Byte>, rest: seq<Byte>)
    ensures var input := Framed(junk, msgtype, data, rest);
      var p := |junk| + 1;
      var p2 := p + |msgtype| + 1;
      input[p - 1] == StartFrame &&
      (forall i :: 0 <= i < |msgtype| ==> Cell(input, p, i) == msgtype[i]) &&
      Cell(input, p, |msgtype|) == TypeDivider &&
      (forall i :: 0 <= i < |data| ==> Cell(input, p2, i) == data[i]) &&
      Cell(input, p2, |data|) == EndFrame
  {
    var input := Framed(junk, msgtype, data, rest);
    assert input == junk + [StartFrame] + msgtype + [TypeDivider] + data + [EndFrame, Newline] + rest;
  }

  /** The frame is found right after junk that holds no '{'. */
  lemma FrameFound(junk: seq<Byte>, msgtype: seq<Byte>, data: seq<Byte>, rest: seq<Byte>)
    requires StartFrame !in junk
    ensures SkipTo(Framed(junk, msgtype, data, rest), 0) == Some(|junk| + 1)
  {
    var input := Framed(junk, msgtype, data, rest);
    FramedCells(junk, msgtype, data, rest);
    assert forall q :: 0 <= q < |junk| ==> input[q] == junk[q];
  }

  /**
   * Reading back what ArdComm_sendMessage writes: after junk without '{',
   * the frame for a type without '{', '|' or '}' and data without '}' is
   * received whole, provided the type fits in the type buffer, the data
   * fits in the data buffer, the data is no longer than the type buffer,
   * and the type buffer's old chars the data loop consults pass its check.
   */
  lemma RoundTrip(junk: seq<Byte>, msgtype: seq<Byte>, data: seq<Byte>, rest: seq<Byte>, t: seq<Byte>, dcap: nat)
    requires StartFrame !in junk
    requires forall i :: 0 <= i < |msgtype| ==> PlainType(msgtype[i])
    requires EndFrame !in data
    requires |msgtype| < |t| && |data| < dcap && |data| <= |t|
    requires forall i :: |msgtype| < i < |data| ==> PassesCheck(t[i])
    ensures Receive(Framed(junk, msgtype, data, rest), 0, t, dcap) ==
      Reception(Code(1), msgtype + [Nul], data + [Nul], |junk| + |msgtype| + |data| + 3)
  {
    var input := Framed(junk, msgtype, data, rest);
    var p := |junk| + 1;
    FrameFound(junk, msgtype, data, rest);
    FramedType(junk, msgtype, data, rest, |t|);
    FramedData(junk, msgtype, data, rest, t, dcap);
    ReceiveDelivered(input, 0, t, dcap, p, |msgtype|, |data|);
  }

  /** Receive along the path of a delivered message: the frame found at p, a '|' after n chars, a '}' after m. */
  lemma ReceiveDelivered(input: seq<Byte>, pos: nat, t: seq<Byte>, dcap: nat, p: nat, n: nat, m: nat)
    requires pos <= |input| && SkipTo(input, pos) == Some(p)
    requires TypeField(input, p, |t|, 0) == Divided(n)
    requires DataField(input, Advance(input, p, n + 1), Cells(input, p, n) + [Nul] + t[n + 1..], dcap, 0) == Ended(m)
    ensures var p2 := Advance(input, p, n + 1);
      Receive(input, pos, t, dcap) ==
        Reception(Code(1), Cells(input, p, n) + [Nul], Cells(input, p2, m) + [Nul], Advance(input, p2, m + 1))
  {
  }

  /** The type loop over the frame's type stops at its '|', having stored the type. */
  lemma FramedType(junk: seq<Byte>, msgtype: seq<Byte>, data: seq<Byte>, rest: seq<Byte>, cap: nat)
    requires forall i :: 0 <= i < |msgtype| ==> PlainType(msgtype[i])
    requires |msgtype| < cap
    ensures var input := Framed(junk, msgtype, data, rest);
      var p := |junk| + 1;
      TypeField(input, p, cap, 0) == Divided(|msgtype|) &&
      Cells(input, p, |msgtype|) == msgtype &&
      Advance(input, p, |msgtype| + 1) == p + |msgtype| + 1
  {
    var input := Framed(junk, msgtype, data, rest);
    var p := |junk| + 1;
    FramedCells(junk, msgtype, data, rest);
    TypeFieldSkips(input, p, cap, 0, |msgtype|);
  }

  /**
   * The data loop over the frame's data, checking the type buffer as the
   * type loop left it, stops at its '}', having stored the data.
   */
  lemma FramedData(junk: seq<Byte>, msgtype: seq<Byte>, data: seq<Byte>, rest: seq<Byte>, t: seq<Byte>, dcap: nat)
    requires forall i :: 0 <= i < |msgtype| ==> PlainType(msgtype[i])
    requires EndFrame !in data
    requires |msgtype| < |t| && |data| < dcap && |data| <= |t|
    requires forall i :: |msgtype| < i < |data| ==> PassesCheck(t[i])
    ensures var input := Framed(junk, msgtype, data, rest);
      var p2 := |junk| + |msgtype| + 2;
      var t' := msgtype + [Nul] + t[|msgtype| + 1..];
      DataField(input, p2, t', dcap, 0) == Ended(|data|) &&
      Cells(input, p2, |data|) == data &&
      Advance(input, p2, |data| + 1) == |junk| + |msgtype| + |data| + 3
  {
    var input := Framed(junk, msgtype, data, rest);
    var p2 := |junk| + |msgtype| + 2;
    FramedCells(junk, msgtype, data, rest);
    var t' := msgtype + [Nul] + t[|msgtype| + 1..];
    TypeBufferPasses(msgtype, t, |data|);
    DataFieldSkips(input, p2, t', dcap, 0, |data|);
  }

  /**
   * The type buffer as the type loop leaves it, a plain type then its NUL
   * over the old chars, passes the data loop's check up to n where the old
   * chars do.
   */
  lemma TypeBufferPasses(msgtype: seq<Byte>, t: seq<Byte>, n: nat)
    requires forall i :: 0 <= i < |msgtype| ==> PlainType(msgtype[i])
    requires |msgtype| < |t| && n <= |t|
    requires forall i :: |msgtype| < i < n ==> PassesCheck(t[i])
    ensures var t' := msgtype + [Nul] + t[|msgtype| + 1..];
      forall i :: 0 <= i < n ==> PassesCheck(t'[i])
  {
    var t' := msgtype + [Nul] + t[|msgtype| + 1..];
    forall i | 0 <= i < n
      ensures PassesCheck(t'[i])
    {
      if i < |msgtype| {
        assert t'[i] == msgtype[i];
      } else if i > |msgtype| {
        assert t'[i] == t[i];
      }
    }
  }

  /**
   * A '{' or '}' met before the '|' ends the call with -1, after the
   * bytes up to and including it were stored.
   */
  lemma BraceInTypeRejected(junk: seq<Byte>, prefix: seq<Byte>, brace: Byte, rest: seq<Byte>, t: seq<Byte>, dcap: nat)
    requires StartFrame !in junk
    requires forall i :: 0 <= i < |prefix| ==> PlainType(prefix[i])
    requires brace == StartFrame || brace == EndFrame
    requires |prefix| < |t|
    ensures var r := Receive(junk + [StartFrame] + prefix + [brace] + rest, 0, t, dcap);
      r.status == Code(-1) && r.typeCells == prefix + [brace] && r.pos == |junk| + |prefix| + 2
  {
    var head := junk + [StartFrame];
    var field := prefix + [brace];
    var input := head + field + rest;
    assert input == junk + [StartFrame] + prefix + [brace] + rest;
    assert input == junk + [StartFrame] + (field + rest);
    FoundAfter(junk, field + rest);
    BraceTypeField(head, prefix, brace, rest, |t|);
  }

  /** The frame starts right after junk that holds no '{'. */
  lemma FoundAfter(junk: seq<Byte>, tail: seq<Byte>)
    requires StartFrame !in junk
    ensures SkipTo(junk + [StartFrame] + tail, 0) == Some(|junk| + 1)
  {
    var input := junk + [StartFrame] + tail;
    assert input[|junk|] == StartFrame;
    assert forall q :: 0 <= q < |junk| ==> input[q] == junk[q];
  }

  /** The type loop over plain chars and then a brace rejects at the brace, having stored both. */
  lemma BraceTypeField(head: seq<Byte>, prefix: seq<Byte>, brace: Byte, rest: seq<Byte>, cap: nat)
    requires forall i :: 0 <= i < |prefix| ==> PlainType(prefix[i])
    requires brace == StartFrame || brace == EndFrame
    requires |prefix| < cap
    ensures var input := head + (prefix + [brace]) + rest;
      TypeField(input, |head|, cap, 0) == Rejected(|prefix|) &&
      Cells(input, |head|, |prefix| + 1) == prefix + [brace]
  {
    var field := prefix + [brace];
    var input := head + field + rest;
    CellsAfter(head, field, rest);
    assert Cell(input, |head|, |prefix|) == brace;
    assert forall i :: 0 <= i < |prefix| ==> Cell(input, |head|, i) == prefix[i];
    TypeFieldSkips(input, |head|, cap, 0, |prefix|);
  }

  /** The chars a loop stores from just past a stretch a are the bytes that follow it. */
  lemma CellsAfter(a: seq<Byte>, s: seq<Byte>, b: seq<Byte>)
    ensures forall i :: 0 <= i < |s| ==> Cell(a + s + b, |a|, i) == s[i]
  {
    forall i | 0 <= i < |s|
      ensures Cell(a + s + b, |a|, i) == s[i]
    {
      assert (a + s + b)[|a| + i] == s[i];
    }
  }

  /** The serial device: the bytes it will deliver, how many were read, and what was written to it. */
  class SerialPort {
    const input: seq<Byte>
    var pos: nat
    var output: seq<Byte>

    constructor(input: seq<Byte>)
      ensures this.input == input && pos == 0 && output == []
    {
      this.input := input;
      pos := 0;
      output := [];
    }

    /** Serial_getByte: the next byte, or -1 once the stream is exhausted, which consumes nothing. */
    method GetByte() returns (b: int)
      requires pos <= |input|
      modifies this
      ensures b == ByteAt(input, old(pos))
      ensures pos == Advance(input, old(pos), 1) && output == old(output)
    {
      b := ByteAt(input, pos);
      if pos < |input| {
        pos := pos + 1;
      }
    }

    /** Serial_sendByte. */
    method SendByte(b: Byte)
      modifies this
      ensures output == old(output) + [b] && pos == old(pos)
    {
      output := output + [b];
    }

    /** Serial_send: all of the given bytes. */
    method Send(bytes: seq<Byte>)
      modifies this
      ensures output == old(output) + bytes && pos == old(pos)
    {
      output := output + bytes;
    }
  }

  /** ArdComm_sendMessage: the frame for the two C strings, then a newline. */
  method SendMessage(port: SerialPort, msgtype: seq<Byte>, buffer: seq<Byte>)
    requires Nul in msgtype && Nul in buffer
    modifies port
    ensures port.output == old(port.output) + Frame(CString(msgtype), CString(buffer))
    ensures port.pos == old(port.pos)
  {
    port.SendByte(StartFrame);
    port.Send(msgtype[..StrLen(msgtype)]);
    port.SendByte(TypeDivider);
    port.Send(buffer[..StrLen(buffer)]);
    port.SendByte(EndFrame);
    port.SendByte(Newline);
  }

  /** A buffer whose first n chars were read from p and whose others are still t's. */
  lemma StoredImage(a: seq<Byte>, input: seq<Byte>, p: nat, n: nat, t: seq<Byte>)
    requires |a| == |t| && n <= |a|
    requires forall i :: 0 <= i < n ==> a[i] == Cell(input, p, i)
    requires forall i :: n <= i < |a| ==> a[i] == t[i]
    ensures a == Cells(input, p, n) + t[n..]
  {
  }

  /** A buffer whose first n chars were read from p, then NUL-terminated, and whose others are still t's. */
  lemma TerminatedImage(a: seq<Byte>, input: seq<Byte>, p: nat, n: nat, t: seq<Byte>)
    requires |a| == |t| && n < |a| && a[n] == Nul
    requires forall i :: 0 <= i < n ==> a[i] == Cell(input, p, i)
    requires forall i :: n < i < |a| ==> a[i] == t[i]
    ensures a == Cells(input, p, n) + [Nul] + t[n + 1..]
  {
  }

  /** The loop that discards bytes up to and including the next '{'. */
  method FindFrame(port: SerialPort) returns (found: bool)
    requires port.pos <= |port.input|
    modifies port
    ensures found <==> SkipTo(port.input, old(port.pos)).Some?
    ensures found ==> port.pos == SkipTo(port.input, old(port.pos)).value
    ensures !found ==> port.pos == |port.input|
    ensures port.output == old(port.output)
  {
    ghost var p0 := port.pos;
    var tmp := 0;
    while tmp != StartFrame as int
      invariant port.pos <= |port.input| && port.output == old(port.output)
      invariant tmp == StartFrame as int ==> SkipTo(port.input, p0) == Some(port.pos)
      invariant tmp != StartFrame as int ==> SkipTo(port.input, p0) == SkipTo(port.input, port.pos)
      decreases |port.input| - port.pos
    {
      tmp := port.GetByte();
      if tmp == -1 {
        return false;
      }
    }
    return true;
  }

  /** The loop that stores the type up to the '|', then its terminating NUL. */
  method ReadType(port: SerialPort, msgtype: array<Byte>) returns (e: TypeEnd)
    requires port.pos <= |port.input|
    modifies port, msgtype
    ensures e == TypeField(port.input, old(port.pos), msgtype.Length, 0)
    ensures port.output == old(port.output) && port.pos <= |port.input|
    ensures e.Rejected? ==> port.pos == Advance(port.input, old(port.pos), e.at + 1)
    ensures e.Rejected? ==> msgtype[..] == Cells(port.input, old(port.pos), e.at + 1) + old(msgtype[..])[e.at + 1..]
    ensures e.Divided? ==> port.pos == Advance(port.input, old(port.pos), e.len + 1)
    ensures e.Divided? ==> msgtype[..] == Cells(port.input, old(port.pos), e.len) + [Nul] + old(msgtype[..])[e.len + 1..]
  {
    ghost var input := port.input;
    ghost var t := msgtype[..];
    var p := port.pos;
    var k := 0;
    while true
      invariant 0 <= k <= msgtype.Length
      invariant port.pos == Advance(input, p, k) && port.output == old(port.output)
      invariant TypeField(input, p, msgtype.Length, k) == TypeField(input, p, msgtype.Length, 0)
      invariant forall i :: 0 <= i < k ==> msgtype[i] == Cell(input, p, i)
      invariant forall i :: k <= i < msgtype.Length ==> msgtype[i] == t[i]
      decreases msgtype.Length - k
    {
      if k == msgtype.Length {
        return TypeOverrun;
      }
      var b := port.GetByte();
      msgtype[k] := Stored(b);
      if msgtype[k] == TypeDivider {
        break;
      }
      if msgtype[k] == EndFrame || msgtype[k] == StartFrame {
        StoredImage(msgtype[..], input, p, k + 1, t);
        return Rejected(k);
      }
      k := k + 1;
    }
    msgtype[k] := Nul;
    TerminatedImage(msgtype[..], input, p, k, t);
    return Divided(k);
  }

  /**
   * The loop that stores the data up to the '}', then its terminating NUL;
   * its check consults the type buffer at the data index.
   */
  method ReadData(port: SerialPort, msgtype: array<Byte>, buffer: array<Byte>) returns (e: DataEnd)
    requires msgtype != buffer && port.pos <= |port.input|
    modifies port, buffer
    ensures e == DataField(port.input, old(port.pos), msgtype[..], buffer.Length, 0)
    ensures port.output == old(port.output) && port.pos <= |port.input|
    ensures e.DataRejected? ==> port.pos == Advance(port.input, old(port.pos), e.at + 1)
    ensures e.DataRejected? ==> buffer[..] == Cells(port.input, old(port.pos), e.at + 1) + old(buffer[..])[e.at + 1..]
    ensures e.Ended? ==> port.pos == Advance(port.input, old(port.pos), e.len + 1)
    ensures e.Ended? ==> buffer[..] == Cells(port.input, old(port.pos), e.len) + [Nul] + old(buffer[..])[e.len + 1..]
  {
    ghost var input := port.input;
    ghost var d := buffer[..];
    ghost var t := msgtype[..];
    var p := port.pos;
    var j := 0;
    while true
      invariant 0 <= j <= buffer.Length
      invariant port.pos == Advance(input, p, j) && port.output == old(port.output)
      invariant DataField(input, p, t, buffer.Length, j) == DataField(input, p, t, buffer.Length, 0)
      invariant forall i :: 0 <= i < j ==> buffer[i] == Cell(input, p, i)
      invariant forall i :: j <= i < buffer.Length ==> buffer[i] == d[i]
      invariant msgtype[..] == t
      decreases buffer.Length - j
    {
      if j == buffer.Length {
        return DataOverrun;
      }
      var b := port.GetByte();
      buffer[j] := Stored(b);
      if buffer[j] == EndFrame {
        break;
      }
      if j >= msgtype.Length {
        return DataOverrun;
      }
      if msgtype[j] == TypeDivider || msgtype[j] == StartFrame {
        StoredImage(buffer[..], input, p, j + 1, d);
        return DataRejected(j);
      }
      j := j + 1;
    }
    buffer[j] := Nul;
    TerminatedImage(buffer[..], input, p, j, d);
    return Ended(j);
  }

  /** ArdComm_getMessage, proved against Receive. */
  method GetMessage(port: SerialPort, msgtype: array<Byte>, buffer: array<Byte>) returns (r: Result)
    requires msgtype != buffer && port.pos <= |port.input|
    modifies port, msgtype, buffer
    ensures var rec := Receive(port.input, old(port.pos), old(msgtype[..]), buffer.Length);
      r == rec.status &&
      (r != Undefined ==>
        port.pos == rec.pos &&
        msgtype[..] == rec.typeCells + old(msgtype[..])[|rec.typeCells|..] &&
        buffer[..] == rec.dataCells + old(buffer[..])[|rec.dataCells|..])
    ensures port.pos <= |port.input| && port.output == old(port.output)
  {
    ghost var input := port.input;
    ghost var t := msgtype[..];
    ghost var p0 := port.pos;
    var found := FindFrame(port);
    if !found {
      return Code(-1);
    }
    ghost var p := port.pos;
    var te := ReadType(port, msgtype);
    if te.TypeOverrun? {
      return Undefined;
    } else if te.Rejected? {
      assert Receive(input, p0, t, buffer.Length) ==
        Reception(Code(-1), Cells(input, p, te.at + 1), [], Advance(input, p, te.at + 1));
      return Code(-1);
    }
    ghost var typeCells := Cells(input, p, te.len) + [Nul];
    ghost var p2 := port.pos;
    assert msgtype[..] == typeCells + t[te.len + 1..];
    var de := ReadData(port, msgtype, buffer);
    if de.DataOverrun? {
      return Undefined;
    } else if de.DataRejected? {
      assert Receive(input, p0, t, buffer.Length) ==
        Reception(Code(-1), typeCells, Cells(input, p2, de.at + 1), Advance(input, p2, de.at + 1));
      return Code(-1);
    }
    assert Receive(input, p0, t, buffer.Length) ==
      Reception(Code(1), typeCells, Cells(input, p2, de.len) + [Nul], Advance(input, p2, de.len + 1));
    return Code(1);
  }

  /** The text ArdComm_getId logs at ERROR when the type is not "ID". */
  const IdErrorText: string := "Error while attempting to read ID"

  /** A message arrived, but its type is not "ID". */
  predicate IdMismatch(rec: Reception) {
    rec.status == Code(1) && CString(rec.typeCells) != IdType
  }

  /** ArdComm_getId's return value once ArdComm_getMessage has given rec. */
  function IdVerdict(rec: Reception): Result {
    if rec.status != Code(1) then rec.status
    else if IdMismatch(rec) then Code(-1)
    else Code(0)
  }

  /** What ArdComm_getId returns with an id buffer of cap chars. */
  function IdOutcome(input: seq<Byte>, pos: nat, cap: nat): Result
    requires pos <= |input|
  {
    IdVerdict(Receive(input, pos, IdTypeBuffer, cap))
  }

  /** A buffer that holds a NUL reads as the same C string whatever follows it. */
  lemma CStringOfPrefix(a: seq<Byte>, b: seq<Byte>)
    requires Nul in a
    ensures CString(a + b) == CString(a)
  {
    var n := StrLen(a);
    assert (a + b)[n] == Nul;
    assert (a + b)[..n] == a[..n];
  }

  /**
   * ArdComm_getId: a message into a zero-filled 16-char type buffer and id;
   * 0 when its type is "ID", otherwise -1, and a received message of
   * another type clears id and is logged at ERROR.
   */
  method GetId(port: SerialPort, id: array<Byte>, logger: Logging.Logger) returns (r: Result, ghost rec: Reception)
    requires port.pos <= |port.input|
    modifies port, id, logger
    ensures rec == Receive(port.input, old(port.pos), IdTypeBuffer, id.Length)
    ensures r == IdVerdict(rec)
    ensures port.pos <= |port.input| && port.output == old(port.output)
    ensures r != Undefined ==> port.pos == rec.pos
    ensures r != Undefined && !IdMismatch(rec) ==> id[..] == rec.dataCells + old(id[..])[|rec.dataCells|..]
    ensures IdMismatch(rec) ==> id[..] == [Nul] + (rec.dataCells + old(id[..])[|rec.dataCells|..])[1..]
    ensures logger.initialized == old(logger.initialized) && logger.minLevel == old(logger.minLevel)
    ensures logger.logStdio == old(logger.logStdio)
    ensures !IdMismatch(rec) || Logging.Error < old(logger.minLevel) ==>
      logger.sent == old(logger.sent) && logger.stdout == old(logger.stdout)
    ensures IdMismatch(rec) && Logging.Error >= old(logger.minLevel) ==>
      logger.sent == old(logger.sent) + (if logger.initialized then [Logging.LogMessage(logger.appName, Logging.Error, IdErrorText)] else [])
    ensures IdMismatch(rec) && Logging.Error >= old(logger.minLevel) ==>
      logger.stdout == old(logger.stdout) + (if logger.logStdio || !logger.initialized then [Logging.StdoutLine(logger.appName, Logging.Error, IdErrorText)] else [])
  {
    var msgtype := new Byte[16](_ => Nul);
    assert msgtype[..] == IdTypeBuffer;
    rec := Receive(port.input, port.pos, IdTypeBuffer, id.Length);
    r := GetMessage(port, msgtype, id);
    if r != Code(1) {
      return;
    }
    r := CheckIdType(msgtype, id, logger, rec);
  }

  /**
   * The end of ArdComm_getId once a message was received: compare its type
   * with "ID"; on a mismatch clear id and log the error.
   */
  method CheckIdType(msgtype: array<Byte>, id: array<Byte>, logger: Logging.Logger, ghost rec: Reception) returns (r: Result)
    requires rec.status == Code(1) && Nul in rec.typeCells && |rec.typeCells| <= |IdTypeBuffer| && id.Length > 0
    requires msgtype[..] == rec.typeCells + IdTypeBuffer[|rec.typeCells|..]
    modifies id, logger
    ensures r == IdVerdict(rec)
    ensures !IdMismatch(rec) ==> id[..] == old(id[..])
    ensures IdMismatch(rec) ==> id[..] == [Nul] + old(id[..])[1..]
    ensures logger.initialized == old(logger.initialized) && logger.minLevel == old(logger.minLevel)
    ensures logger.logStdio == old(logger.logStdio)
    ensures !IdMismatch(rec) || Logging.Error < old(logger.minLevel) ==>
      logger.sent == old(logger.sent) && logger.stdout == old(logger.stdout)
    ensures IdMismatch(rec) && Logging.Error >= old(logger.minLevel) ==>
      logger.sent == old(logger.sent) + (if logger.initialized then [Logging.LogMessage(logger.appName, Logging.Error, IdErrorText)] else [])
    ensures IdMismatch(rec) && Logging.Error >= old(logger.minLevel) ==>
      logger.stdout == old(logger.stdout) + (if logger.logStdio || !logger.initialized then [Logging.StdoutLine(logger.appName, Logging.Error, IdErrorText)] else [])
  {
    CStringOfPrefix(rec.typeCells, IdTypeBuffer[|rec.typeCells|..]);
    if CString(msgtype[..]) != IdType {
      ClearString(id);
      logger.Log(Logging.Error, IdErrorText);
      r := Code(-1);
    } else {
      r := Code(0);
    }
  }

  /** `id[0] = '\0'`: the buffer then holds the empty C string. */
  method ClearString(buf: array<Byte>)
    requires buf.Length > 0
    modifies buf
    ensures buf[..] == [Nul] + old(buf[..])[1..]
  {
    buf[0] := Nul;
  }

  /**
   * ArdComm_handshake: read the identification message into a 64-char
   * buffer; on success send ESTABLISHED, then READY, each with data "NULL".
   * The stream is left just past the message read, and a message of
   * another type is logged at ERROR, as in ArdComm_getId.
   */
  method Handshake(port: SerialPort, logger: Logging.Logger) returns (r: Result)
    requires port.pos <= |port.input|
    modifies port, logger
    ensures r == IdOutcome(port.input, old(port.pos), 64)
    ensures r == Code(0) ==> port.output == old(port.output) + Frame(Established, NullData) + Frame(Ready, NullData)
    ensures r != Code(0) ==> port.output == old(port.output)
    ensures port.pos <= |port.input|
    ensures r != Undefined ==> port.pos == Receive(port.input, old(port.pos), IdTypeBuffer, 64).pos
    ensures logger.initialized == old(logger.initialized) && logger.minLevel == old(logger.minLevel)
    ensures logger.logStdio == old(logger.logStdio)
    ensures var rec := Receive(port.input, old(port.pos), IdTypeBuffer, 64);
      !IdMismatch(rec) || Logging.Error < old(logger.minLevel) ==>
        logger.sent == old(logger.sent) && logger.stdout == old(logger.stdout)
    ensures var rec := Receive(port.input, old(port.pos), IdTypeBuffer, 64);
      IdMismatch(rec) && Logging.Error >= old(logger.minLevel) ==>
        logger.sent == old(logger.sent) + (if logger.initialized then [Logging.LogMessage(logger.appName, Logging.Error, IdErrorText)] else []) &&
        logger.stdout == old(logger.stdout) + (if logger.logStdio || !logger.initialized then [Logging.StdoutLine(logger.appName, Logging.Error, IdErrorText)] else [])
  {
    var name := new Byte[64];
    ghost var rec;
    r, rec := GetId(port, name, logger);
    if r != Code(0) {
      return;
    }
    Announce(port);
    return Code(0);
  }

  /** The two messages ArdComm_handshake sends once the device has identified itself. */
  method Announce(port: SerialPort)
    modifies port
    ensures port.output == old(port.output) + Frame(Established, NullData) + Frame(Ready, NullData)
    ensures port.pos == old(port.pos)
  {
    CStringOfTerminated(Established, []);
    CStringOfTerminated(Ready, []);
    CStringOfTerminated(NullData, []);
    SendMessage(port, Established + [Nul], NullData + [Nul]);
    SendMessage(port, Ready + [Nul], NullData + [Nul]);
  }

  /**
   * An "ID" frame after junk without '{' identifies the device when the
   * identifier has no '}', fits the id buffer and is at most 16 chars.
   */
  lemma IdFrameAccepted(junk: seq<Byte>, ident: seq<Byte>, rest: seq<Byte>, cap: nat)
    requires StartFrame !in junk && EndFrame !in ident
    requires |ident| < cap && |ident| <= |IdTypeBuffer|
    ensures IdOutcome(Framed(junk, IdType, ident, rest), 0, cap) == Code(0)
  {
    RoundTrip(junk, IdType, ident, rest, IdTypeBuffer, cap);
    CStringOfTerminated(IdType, []);
  }

  /** A frame of any other type, otherwise well formed, is refused with -1. */
  lemma OtherTypeRefused(junk: seq<Byte>, msgtype: seq<Byte>, data: seq<Byte>, rest: seq<Byte>, cap: nat)
    requires StartFrame !in junk && EndFrame !in data && Nul !in msgtype
    requires forall i :: 0 <= i < |msgtype| ==> PlainType(msgtype[i])
    requires msgtype != IdType
    requires |msgtype| < |IdTypeBuffer| && |data| < cap && |data| <= |IdTypeBuffer|
    ensures IdOutcome(Framed(junk, msgtype, data, rest), 0, cap) == Code(-1)
  {
    RoundTrip(junk, msgtype, data, rest, IdTypeBuffer, cap);
    CStringOfTerminated(msgtype, []);
  }

  /**
   * As written, the data loop consults type[buffer_s]: an identifier longer
   * than the 16-char type buffer makes ArdComm_getId read past that buffer.
   */
  lemma LongIdentifierOverruns(junk: seq<Byte>, ident: seq<Byte>, rest: seq<Byte>, cap: nat)
    requires StartFrame !in junk && EndFrame !in ident
    requires |IdTypeBuffer| < |ident| < cap
    ensures IdOutcome(Framed(junk, IdType, ident, rest), 0, cap) == Undefined
  {
    var input := Framed(junk, IdType, ident, rest);
    var p := |junk| + 1;
    var p2 := p + |IdType| + 1;
    FrameFound(junk, IdType, ident, rest);
    FramedCells(junk, IdType, ident, rest);
    TypeFieldSkips(input, p, 16, 0, |IdType|);
    assert TypeField(input, p, 16, 0) == Divided(|IdType|);
    assert Cells(input, p, |IdType|) == IdType;
    var t' := IdType + [Nul] + IdTypeBuffer[|IdType| + 1..];
    assert Advance(input, p, |IdType| + 1) == p2;
    assert forall i :: 0 <= i < 16 ==> PassesCheck(t'[i]);
    DataFieldSkips(input, p2, t', cap, 0, 16);
    assert DataField(input, p2, t', cap, 16) == DataOverrun;
  }
}
