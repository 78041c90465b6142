/**
 * The client library's wire codec and its request-ID table.
 *
 * A packed message is a byte buffer: a 6-byte header holding the data
 * length, the request ID and the component count, each a 16-bit big-endian
 * field, then every component followed by one NUL. Each char of a packed
 * buffer stands for one byte.
 */
module Comm {
  import opened Wrappers

  /** Length of the binary header of every packed message. */
  const PrefixLen: nat := 6
  /** The request table starts with this many slots and grows by as many. */
  const ResponseSetGrow: nat := 8
  /** Largest request ID that fits the 16-bit header field. */
  const MaxRequestId: nat := 0xffff

  /** An unpacked message: request ID 0 means no response is expected. */
  datatype Message = Message(requestId: nat, components: seq<string>)

  /** A packed message: the 16-bit length field and the bytes themselves. */
  datatype Packed = Packed(length: nat, data: seq<char>)

  /**
   * What the C types can hold: a 16-bit request ID, an unsigned short count,
   * and components that are C strings, so without NUL.
   */
  predicate WellFormed(m: Message) {
    m.requestId < 0x1_0000 && |m.components| < 0x1_0000 &&
    forall i :: 0 <= i < |m.components| ==> '\0' !in m.components[i]
  }

  predicate IsBytes(data: seq<char>) {
    forall i :: 0 <= i < |data| ==> data[i] as int < 256
  }

  /** htons(n) as two bytes, most significant first, of n truncated to 16 bits. */
  function U16(n: nat): (b: seq<char>)
    ensures |b| == 2 && IsBytes(b)
  {
    [((n / 256) % 256) as char, (n % 256) as char]
  }

  /** ntohs() of two bytes. */
  function ReadU16(hi: char, lo: char): (n: nat)
    requires hi as int < 256 && lo as int < 256
    ensures n < 0x1_0000
  {
    hi as int * 256 + lo as int
  }

  lemma ReadU16OfU16(n: nat)
    ensures ReadU16(U16(n)[0], U16(n)[1]) == n % 0x1_0000
  {
    var q := n / 256;
    assert n == q * 256 + n % 256;
    assert q == (q / 256) * 256 + q % 256;
    assert n == (q / 256) * 0x1_0000 + (q % 256) * 256 + n % 256;
  }

  /** Sum over the components of their length plus one for the NUL. */
  function TotalLength(cs: seq<string>): nat {
    if cs == [] then 0 else TotalLength(cs[..|cs| - 1]) + |cs[|cs| - 1]| + 1
  }

  /** The data part of a packed message: every component followed by a NUL. */
  function Body(cs: seq<string>): seq<char> {
    if cs == [] then [] else Body(cs[..|cs| - 1]) + cs[|cs| - 1] + ['\0']
  }

  /** The 6-byte header: data length, request ID, count, each htons'd. */
  function Header(dataLength: nat, requestId: nat, count: nat): (h: seq<char>)
    ensures |h| == PrefixLen && IsBytes(h)
  {
    U16(dataLength) + U16(requestId) + U16(count)
  }

  /** The bytes Comm_packMessage produces for m. */
  function Encode(m: Message): seq<char> {
    Header(TotalLength(m.components), m.requestId, |m.components|) + Body(m.components)
  }

  lemma {:induction false} BodyLength(cs: seq<string>)
    ensures |Body(cs)| == TotalLength(cs)
  {
    if cs != [] {
      BodyLength(cs[..|cs| - 1]);
    }
  }

  /** Body read from the front: the first component, its NUL, then the rest. */
  lemma {:induction false} BodyCons(cs: seq<string>)
    requires cs != []
    ensures Body(cs) == cs[0] + ['\0'] + Body(cs[1..])
    decreases |cs|
  {
    if |cs| > 1 {
      var init := cs[..|cs| - 1];
      assert init[1..] == cs[1..][..|cs[1..]| - 1];
      BodyCons(init);
    } else {
      assert cs[..0] == [] && cs[1..] == [];
    }
  }

  /**
   * Comm_packMessage. The first loop sums the component lengths (each with
   * its NUL), the second copies the components after the header.
   */
  method Pack(m: Message) returns (p: Packed)
    requires WellFormed(m)
    ensures p.length == (TotalLength(m.components) + PrefixLen) % 0x1_0000
    ensures p.data == Encode(m)
  {
    var cs := m.components;
    var lengths, total := ComponentLengths(cs);
    var data := U16(total) + U16(m.requestId) + U16(|cs|);
    for i := 0 to |cs|
      invariant data == Header(total, m.requestId, |cs|) + Body(cs[..i])
    {
      BodyPrefixStep(cs, i);
      assert cs[i][..lengths[i] - 1] == cs[i];
      data := data + cs[i][..lengths[i] - 1] + ['\0'];
    }
    assert cs[..|cs|] == cs;
    p := Packed((total + PrefixLen) % 0x1_0000, data);
  }

  /** The body of one more component: its bytes and a NUL appended. */
  lemma BodyPrefixStep(cs: seq<string>, i: nat)
    requires i < |cs|
    ensures Body(cs[..i + 1]) == Body(cs[..i]) + cs[i] + ['\0']
  {
    assert cs[..i + 1][..i] == cs[..i];
  }

  /**
   * The first loop of Comm_packMessage: each component's length with its
   * NUL, and their sum.
   */
  method ComponentLengths(cs: seq<string>) returns (lengths: seq<nat>, total: nat)
    ensures |lengths| == |cs|
    ensures forall j :: 0 <= j < |cs| ==> lengths[j] == |cs[j]| + 1
    ensures total == TotalLength(cs)
  {
    lengths := [];
    total := 0;
    for i := 0 to |cs|
      invariant |lengths| == i
      invariant forall j :: 0 <= j < i ==> lengths[j] == |cs[j]| + 1
      invariant total == TotalLength(cs[..i])
    {
      assert cs[..i + 1][..i] == cs[..i];
      lengths := lengths + [|cs[i]| + 1];
      total := total + lengths[i];
    }
    assert cs[..|cs|] == cs;
  }

  /** The length field is the buffer's true size whenever the total fits 16 bits. */
  lemma PackedLengthExact(m: Message)
    requires TotalLength(m.components) + PrefixLen < 0x1_0000
    ensures |Encode(m)| == TotalLength(m.components) + PrefixLen
  {
    BodyLength(m.components);
  }

  /** Result of unpacking a packed buffer. */
  datatype Unpacked =
    | Unpacked(message: Message)
      /** The header's count is 0: the C asserts against it and aborts. */
    | ZeroCount
      /**
       * The buffer ends before the header, the data, or a component's NUL.
       * The C checks none of these and reads past the buffer; the model
       * stops there instead.
       */
    | Truncated

  /**
   * The first n NUL-terminated strings of body, or None when body runs out
   * first. Bytes after the n-th NUL are ignored.
   */
  function Components(body: seq<char>, n: nat): Option<seq<string>>
    decreases n
  {
    if n == 0 then Some([])
    else match NulPos(body)
      case None => None
      case Some(k) => Prepend([body[..k]], Components(body[k + 1..], n - 1))
  }

  /** Index of the first NUL in s, if any. */
  function NulPos(s: seq<char>): (r: Option<nat>)
    ensures r.Some? ==>
      r.value < |s| && s[r.value] == '\0' && forall j :: 0 <= j < r.value ==> s[j] != '\0'
    ensures r.None? ==> forall j :: 0 <= j < |s| ==> s[j] != '\0'
  {
    if s == [] then None
    else if s[0] == '\0' then Some(0)
    else match NulPos(s[1..])
      case None => None
      case Some(k) => Some(k + 1)
  }

  /** The first NUL is where the bytes before are not NUL and the byte is. */
  lemma NulPosAt(s: seq<char>, k: nat)
    requires k < |s| && s[k] == '\0'
    requires forall j :: 0 <= j < k ==> s[j] != '\0'
    ensures NulPos(s) == Some(k)
  {
  }

  /** What Comm_unpackMessage makes of a packed buffer. */
  function Decode(data: seq<char>): Unpacked
    requires IsBytes(data)
  {
    if |data| < PrefixLen then Truncated
    else
      var len := ReadU16(data[0], data[1]);
      var id := ReadU16(data[2], data[3]);
      var count := ReadU16(data[4], data[5]);
      if count == 0 then ZeroCount
      else if |data| < PrefixLen + len then Truncated
      else match Components(data[PrefixLen..PrefixLen + len], count)
        case None => Truncated
        case Some(cs) => Unpacked(Message(id, cs))
  }

  /** done followed by what rest holds, if anything. */
  function Prepend(done: seq<string>, rest: Option<seq<string>>): Option<seq<string>> {
    match rest
    case None => None
    case Some(r) => Some(done + r)
  }

  /**
   * Comm_unpackMessage: read the three header fields, refuse a count of 0,
   * then split the data into count components.
   */
  method Unpack(data: seq<char>) returns (r: Unpacked)
    requires IsBytes(data)
    ensures r == Decode(data)
  {
    if |data| < PrefixLen {
      return Truncated;
    }
    var len := ReadU16(data[0], data[1]);
    var id := ReadU16(data[2], data[3]);
    var count := ReadU16(data[4], data[5]);
    if count == 0 {
      return ZeroCount;
    }
    if |data| < PrefixLen + len {
      return Truncated;
    }
    var cs := SplitComponents(data[PrefixLen..PrefixLen + len], count);
    match cs
    case None => r := Truncated;
    case Some(cs) => r := Unpacked(Message(id, cs));
  }

  /**
   * The component loop of Comm_unpackMessage: each component after the first
   * starts one past the NUL of the one before, found by a strlen() scan.
   */
  method SplitComponents(body: seq<char>, count: nat) returns (r: Option<seq<string>>)
    ensures r == Components(body, count)
  {
    var cs: seq<string> := [];
    var start := 0;
    var left := count;
    PrependNothing(body, count);
    while left > 0
      invariant start <= |body|
      invariant SplitSoFar(body, count, cs, start, left)
    {
      var n := StrLen(body, start);
      if n == |body| {
        ComponentsRunOut(body, start, left);
        return None;
      }
      SplitStep(body, count, cs, start, n, left);
      cs := cs + [body[start..n]];
      start := n + 1;
      left := left - 1;
    }
    PrependDone(body, count, cs, start);
    r := Some(cs);
  }

  /**
   * strlen() from start, bounded by the end of the buffer: the index of the
   * first NUL at or after start, or |body| when there is none.
   */
  method StrLen(body: seq<char>, start: nat) returns (n: nat)
    requires start <= |body|
    ensures start <= n <= |body|
    ensures forall j :: start <= j < n ==> body[j] != '\0'
    ensures n < |body| ==> body[n] == '\0'
  {
    n := start;
    while n < |body| && body[n] != '\0'
      invariant start <= n <= |body|
      invariant forall j :: start <= j < n ==> body[j] != '\0'
    {
      n := n + 1;
    }
  }

  /** With no NUL left from start, the split runs out. */
  lemma ComponentsRunOut(body: seq<char>, start: nat, count: nat)
    requires start <= |body| && count > 0
    requires forall j :: start <= j < |body| ==> body[j] != '\0'
    ensures Components(body[start..], count) == None
  {
  }

  /**
   * One strlen() step of the split: the next component runs from start to
   * the first NUL at or after it.
   */
  lemma ComponentsStep(body: seq<char>, start: nat, n: nat, count: nat)
    requires start <= n < |body| && count > 0
    requires forall j :: start <= j < n ==> body[j] != '\0'
    requires body[n] == '\0'
    ensures Components(body[start..], count) ==
      Prepend([body[start..n]], Components(body[n + 1..], count - 1))
  {
    var rest := body[start..];
    assert rest[..n - start] == body[start..n];
    NulPosAt(rest, n - start);
    assert Components(rest, count) ==
      Prepend([rest[..n - start]], Components(rest[n - start + 1..], count - 1));
    assert rest[n - start + 1..] == body[n + 1..];
  }

  /**
   * The split so far: cs are the components found, and the left ones still
   * to find in the body from start make up the rest.
   */
  predicate SplitSoFar(body: seq<char>, count: nat, cs: seq<string>, start: nat, left: nat)
    requires start <= |body|
  {
    Components(body, count) == Prepend(cs, Components(body[start..], left))
  }

  /** Before the split, nothing has been found and the whole body is left. */
  lemma PrependNothing(body: seq<char>, count: nat)
    ensures SplitSoFar(body, count, [], 0, count)
  {
    assert body[0..] == body;
    var whole := Components(body, count);
    if whole.Some? {
      assert [] + whole.value == whole.value;
    }
  }

  /** With no components left to find, the split is what was found. */
  lemma PrependDone(body: seq<char>, count: nat, cs: seq<string>, start: nat)
    requires start <= |body| && SplitSoFar(body, count, cs, start, 0)
    ensures Components(body, count) == Some(cs)
  {
    assert cs + [] == cs;
  }

  /** The split's invariant carried over one component. */
  lemma SplitStep(body: seq<char>, count: nat, cs: seq<string>, start: nat, n: nat, left: nat)
    requires start <= n < |body| && left > 0
    requires forall j :: start <= j < n ==> body[j] != '\0'
    requires body[n] == '\0'
    requires SplitSoFar(body, count, cs, start, left)
    ensures SplitSoFar(body, count, cs + [body[start..n]], n + 1, left - 1)
  {
    ComponentsStep(body, start, n, left);
    PrependAppend(cs, body[start..n], Components(body[n + 1..], left - 1));
  }

  lemma PrependAppend(cs: seq<string>, c: string, rest: Option<seq<string>>)
    ensures Prepend(cs, Prepend([c], rest)) == Prepend(cs + [c], rest)
  {
    if rest.Some? {
      assert cs + ([c] + rest.value) == (cs + [c]) + rest.value;
    }
  }

  /** The header fields read back as written, when each fits 16 bits. */
  lemma HeaderFields(len: nat, id: nat, count: nat, body: seq<char>)
    requires len < 0x1_0000 && id < 0x1_0000 && count < 0x1_0000
    ensures var d := Header(len, id, count) + body;
      ReadU16(d[0], d[1]) == len && ReadU16(d[2], d[3]) == id &&
      ReadU16(d[4], d[5]) == count && d[PrefixLen..] == body
  {
    ReadU16OfU16(len);
    ReadU16OfU16(id);
    ReadU16OfU16(count);
  }

  /** A buffer whose count field is 0 never unpacks. */
  lemma DecodeRejectsZeroCount(data: seq<char>)
    requires IsBytes(data) && |data| >= PrefixLen && data[4] == '\0' && data[5] == '\0'
    ensures Decode(data) == ZeroCount
  {
  }

  /** Splitting the body of well-formed components gives them back, whatever follows. */
  lemma {:induction false} ComponentsOfBody(cs: seq<string>, tail: seq<char>)
    requires forall i :: 0 <= i < |cs| ==> '\0' !in cs[i]
    ensures Components(Body(cs) + tail, |cs|) == Some(cs)
    decreases |cs|
  {
    if cs != [] {
      BodyCons(cs);
      var b := Body(cs) + tail;
      var rest := Body(cs[1..]) + tail;
      assert b == cs[0] + ['\0'] + rest;
      assert b[|cs[0]|] == '\0';
      assert NulPos(b) == Some(|cs[0]|) by {
        assert b[..|cs[0]|] == cs[0];
      }
      assert b[..|cs[0]|] == cs[0];
      assert b[|cs[0]| + 1..] == rest;
      ComponentsOfBody(cs[1..], tail);
      assert [cs[0]] + cs[1..] == cs;
    } else {
      assert Components(Body(cs) + tail, 0) == Some([]);
    }
  }

  /** A successful split yields n components, none holding a NUL. */
  lemma {:induction false} ComponentsShape(body: seq<char>, n: nat, cs: seq<string>)
    requires Components(body, n) == Some(cs)
    ensures |cs| == n
    ensures forall i :: 0 <= i < |cs| ==> '\0' !in cs[i]
    decreases n
  {
    if n > 0 {
      var k := NulPos(body).value;
      var later := Components(body[k + 1..], n - 1);
      assert later.Some?;
      var rest := later.value;
      assert cs == [body[..k]] + rest;
      ComponentsShape(body[k + 1..], n - 1, rest);
      assert forall j :: 0 <= j < k ==> body[..k][j] != '\0';
      assert forall i :: 1 <= i < |cs| ==> cs[i] == rest[i - 1];
    } else {
      assert cs == [];
    }
  }

  /** The components found by a successful split, laid out again, are a prefix of the body. */
  lemma {:induction false} BodyOfComponents(body: seq<char>, n: nat, cs: seq<string>)
    requires Components(body, n) == Some(cs)
    ensures |Body(cs)| <= |body| && body[..|Body(cs)|] == Body(cs)
    decreases n
  {
    if n > 0 {
      var k := NulPos(body).value;
      var later := Components(body[k + 1..], n - 1);
      assert later.Some?;
      var rest := later.value;
      assert cs == [body[..k]] + rest;
      BodyOfComponents(body[k + 1..], n - 1, rest);
      assert cs[0] == body[..k] && cs[1..] == rest;
      BodyCons(cs);
      PrefixJoin(body, k, Body(rest));
    } else {
      assert cs == [];
    }
  }

  /** A prefix of the bytes after position k, joined to what lies up to k. */
  lemma PrefixJoin(body: seq<char>, k: nat, b: seq<char>)
    requires k < |body| && |b| <= |body[k + 1..]| && body[k + 1..][..|b|] == b
    ensures body[..k + 1 + |b|] == body[..k] + [body[k]] + b
  {
    var joined := body[..k] + [body[k]] + b;
    forall i | 0 <= i < k + 1 + |b|
      ensures body[..k + 1 + |b|][i] == joined[i]
    {
      if i > k {
        assert b[i - k - 1] == body[k + 1..][i - k - 1];
      }
    }
  }

  /** Components made of bytes lay out as bytes. */
  lemma {:induction false} BodyBytes(cs: seq<string>)
    requires forall i :: 0 <= i < |cs| ==> IsBytes(cs[i])
    ensures IsBytes(Body(cs))
  {
    if cs != [] {
      BodyBytes(cs[..|cs| - 1]);
      var last := cs[|cs| - 1];
      assert IsBytes(last);
    }
  }

  /**
   * Round trip: unpacking what packing produced gives back the request ID and
   * the components, when there is at least one component, every component
   * is made of bytes, and the packed length (data plus the 6-byte header)
   * fits its 16-bit field.
   */
  lemma DecodeEncode(m: Message)
    requires WellFormed(m)
    requires |m.components| >= 1
    requires forall i :: 0 <= i < |m.components| ==> IsBytes(m.components[i])
    requires TotalLength(m.components) + PrefixLen < 0x1_0000
    ensures IsBytes(Encode(m)) && Decode(Encode(m)) == Unpacked(m)
  {
    var cs := m.components;
    BodyBytes(cs);
    BodyLength(cs);
    ComponentsOfBody(cs, []);
    assert Body(cs) + [] == Body(cs);
    DecodeFramed(TotalLength(cs), m.requestId, |cs|, Body(cs));
  }


  /** Decoding a header with a non-zero count followed by exactly the data it announces. */
  lemma DecodeFramed(len: nat, id: nat, count: nat, body: seq<char>)
    requires len < 0x1_0000 && id < 0x1_0000 && 0 < count < 0x1_0000 && |body| == len
    requires IsBytes(Header(len, id, count) + body)
    ensures Decode(Header(len, id, count) + body) ==
      match Components(body, count)
      case None => Truncated
      case Some(cs) => Unpacked(Message(id, cs))
  {
    var d := Header(len, id, count) + body;
    HeaderFields(len, id, count, body);
    assert d[PrefixLen..PrefixLen + len] == body;
  }

  /** Comm_Message_new: request ID 0 and room for n components. */
  function MessageNew(n: nat): (m: Message)
    ensures m.requestId == 0 && |m.components| == n
  {
    Message(0, seq(n, _ => ""))
  }

  /** Outcome of Comm_assignRequestID. */
  datatype Assignment =
    | Assigned(id: nat)
      /**
       * Every ID is pending and the table is at its limit; the C keeps
       * probing forever while holding the table's lock.
       */
    | Exhausted

  /** The smallest i in [lo, hi) with p[i] false. */
  function FirstFree(p: seq<bool>, lo: nat, hi: nat): (r: Option<nat>)
    requires hi <= |p|
    ensures r.Some? ==>
      lo <= r.value < hi && !p[r.value] && forall j :: lo <= j < r.value ==> p[j]
    ensures r.None? ==> forall j :: lo <= j < hi ==> p[j]
    decreases hi - lo
  {
    if lo >= hi then None else if !p[lo] then Some(lo) else FirstFree(p, lo + 1, hi)
  }

  /**
   * The ID the probe settles on: the first free one at or after last, else
   * the first free one from 1 on, visiting 1..|p|-1 in cyclic order.
   */
  function NextFreeId(p: seq<bool>, last: nat): Option<nat>
    requires 1 <= last < |p|
  {
    match FirstFree(p, last, |p|)
    case Some(i) => Some(i)
    case None => FirstFree(p, 1, last)
  }

  /** The probe never yields the reserved ID 0, and yields a free ID. */
  lemma NextFreeIdIsFree(p: seq<bool>, last: nat)
    requires 1 <= last < |p|
    ensures NextFreeId(p, last).Some? ==>
      0 < NextFreeId(p, last).value < |p| && !p[NextFreeId(p, last).value]
  {
  }

  /** The probe finds nothing exactly when every ID 1..|p|-1 is pending. */
  lemma NextFreeIdNoneIffFull(p: seq<bool>, last: nat)
    requires 1 <= last < |p|
    ensures NextFreeId(p, last).None? <==> forall j :: 1 <= j < |p| ==> p[j]
  {
    if NextFreeId(p, last).None? {
      assert forall j :: last <= j < |p| ==> p[j];
      assert forall j :: 1 <= j < last ==> p[j];
    } else {
      NextFreeIdIsFree(p, last);
    }
  }

  /**
   * The client's table of outstanding requests: pending[id] says that a
   * response to id is awaited, responses[id] holds it once it arrives.
   */
  class RequestTable {
    var pending: seq<bool>
    var responses: seq<Option<Message>>
    var lastId: nat

    ghost predicate Valid()
      reads this
    {
      |pending| == |responses| &&
      ResponseSetGrow <= |pending| < MaxRequestId && |pending| % ResponseSetGrow == 0 &&
      1 <= lastId < |pending|
    }

    /** The tables as Comm_init allocates them: 8 zeroed slots, probing from 1. */
    constructor()
      ensures Valid()
      ensures pending == seq(ResponseSetGrow, _ => false)
      ensures responses == seq(ResponseSetGrow, _ => None)
      ensures lastId == 1
    {
      pending := seq(ResponseSetGrow, _ => false);
      responses := seq(ResponseSetGrow, _ => None);
      lastId := 1;
    }

    /** The growth step of Comm_assignRequestID: 8 zeroed slots, probing from the first. */
    method Grow()
      requires Valid() && |pending| + ResponseSetGrow < MaxRequestId
      modifies this
      ensures Valid()
      ensures lastId == old(|pending|)
      ensures pending == old(pending) + seq(ResponseSetGrow, _ => false)
      ensures responses == old(responses) + seq(ResponseSetGrow, _ => None)
    {
      lastId := |pending|;
      responses := responses + seq(ResponseSetGrow, _ => None);
      pending := pending + seq(ResponseSetGrow, _ => false);
    }

    /**
     * Comm_assignRequestID. Probe from lastId with id := id % (size - 1) + 1;
     * when the probe comes back to lastId, grow both tables by 8 zeroed slots
     * and take the first new one, if the size stays below 0xffff.
     */
    method AssignRequestID() returns (r: Assignment)
      requires Valid()
      modifies this
      ensures Valid()
      ensures NextFreeId(old(pending), old(lastId)).Some? ==>
        var id := NextFreeId(old(pending), old(lastId)).value;
        r == Assigned(id) && lastId == old(lastId) &&
        pending == old(pending)[id := true] && responses == old(responses)[id := None]
      ensures NextFreeId(old(pending), old(lastId)).None? && old(|pending|) + ResponseSetGrow < MaxRequestId ==>
        r == Assigned(old(|pending|)) && lastId == old(|pending|) &&
        pending == (old(pending) + seq(ResponseSetGrow, _ => false))[old(|pending|) := true] &&
        responses == old(responses) + seq(ResponseSetGrow, _ => None)
      ensures NextFreeId(old(pending), old(lastId)).None? && old(|pending|) + ResponseSetGrow >= MaxRequestId ==>
        r == Exhausted && pending == old(pending) && responses == old(responses) && lastId == old(lastId)
    {
      ghost var p0 := pending;
      ghost var s0 := responses;
      ghost var last0 := lastId;
      ghost var wrapped := false;
      ghost var grown := false;
      var id := lastId;
      while pending[id]
        invariant Valid()
        invariant 1 <= id < |pending|
        invariant grown ==>
          |p0| + ResponseSetGrow < MaxRequestId &&
          pending == p0 + seq(ResponseSetGrow, _ => false) &&
          responses == s0 + seq(ResponseSetGrow, _ => None) &&
          id == lastId == |p0| && NextFreeId(p0, last0).None?
        invariant !grown ==> pending == p0 && responses == s0 && lastId == last0
        invariant !grown && !wrapped ==> last0 <= id && forall j :: last0 <= j < id ==> pending[j]
        invariant !grown && wrapped ==> id < last0
        invariant !grown && wrapped ==> forall j :: last0 <= j < |pending| ==> pending[j]
        invariant !grown && wrapped ==> forall j :: 1 <= j < id ==> pending[j]
        decreases !grown, !wrapped, if wrapped then last0 - id else |pending| - id
      {
        var size := |pending|;
        ProbeStep(id, size - 1);
        if id == size - 1 {
          wrapped := true;
        }
        id := id % (size - 1) + 1;
        if id == lastId {
          assert forall j :: 1 <= j < size ==> pending[j];
          NextFreeIdNoneIffFull(p0, last0);
          if size + ResponseSetGrow < MaxRequestId {
            Grow();
            id := lastId;
            grown := true;
          } else {
            return Exhausted;
          }
        }
      }
      if !grown {
        assert NextFreeId(p0, last0) == Some(id) by {
          if !wrapped {
            assert FirstFree(p0, last0, |p0|) == Some(id) by {
              FirstFreeIsFirst(p0, last0, |p0|, id);
            }
          } else {
            assert FirstFree(p0, last0, |p0|).None?;
            FirstFreeIsFirst(p0, 1, last0, id);
          }
        }
      }
      responses := responses[id := None];
      pending := pending[id := true];
      r := Assigned(id);
    }
  }

  /** The probe step id % n + 1 moves to the next ID, wrapping from n to 1. */
  lemma ProbeStep(id: nat, n: nat)
    requires 1 <= id <= n
    ensures id % n + 1 == if id == n then 1 else id + 1
  {
  }

  /** A free slot with only pending ones before it is what FirstFree finds. */
  lemma {:induction false} FirstFreeIsFirst(p: seq<bool>, lo: nat, hi: nat, i: nat)
    requires hi <= |p| && lo <= i < hi && !p[i]
    requires forall j :: lo <= j < i ==> p[j]
    ensures FirstFree(p, lo, hi) == Some(i)
    decreases i - lo
  {
    if lo < i {
      FirstFreeIsFirst(p, lo + 1, hi, i);
    }
  }
}
