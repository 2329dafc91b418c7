/**
  The payload of a BLE broadcast: the encoder and decoder of pybricks/common/pb_type_ble.c.

  A payload travels in a Manufacturer Specific Data structure (section 1.4 of Part A of the
  Bluetooth Core Specification Supplement), and has room for 26 bytes.
 */
module BleCodec {
  import opened Common
  import opened LittleEndian

  const MAX_SIZE: nat := 26

  const OVERHEAD: nat := 5

  const MFG_SPECIFIC: byte := 0xFF

  /** LEGO_CID, low byte first. */
  const LEGO_CID: seq<byte> := [0x97, 0x03]

  /** Python values that can be sent; a float is its four bytes. */
  datatype Data = True | False | Int(i: int) | Float(bits: seq<byte>) | Str(s: seq<byte>) | Bytes(s: seq<byte>)

  /** What broadcast() is given and observe() returns: None, one value, or a tuple. */
  datatype Message = Nothing | Single(d: Data) | Many(ds: seq<Data>)

  const SINGLE_OBJECT: nat := 0
  const TRUE: nat := 1
  const FALSE: nat := 2
  const INT: nat := 3
  const FLOAT: nat := 4
  const STR: nat := 5
  const BYTES: nat := 6

  // ---------- Signed integers ----------

  /** The bytes of a two's complement integer of n bytes. */
  function SignedBytes(i: int, n: nat): seq<byte> {
    Le(if i < 0 then (if i + Span(n) < 0 then 0 else i + Span(n)) else i, n)
  }

  function FromSigned(s: seq<byte>): int {
    if 2 * FromLe(s) < Span(|s|) then FromLe(s) else FromLe(s) - Span(|s|)
  }

  lemma SignedRoundTrip(i: int, n: nat)
    requires 0 <= 2 * i + Span(n) && 2 * i < Span(n)
    ensures FromSigned(SignedBytes(i, n)) == i
  {
    LeRoundTrip(if i < 0 then i + Span(n) else i, n);
  }

  // ---------- Encoding ----------

  predicate IsInt8(i: int) { -0x80 <= i < 0x80 }

  predicate IsInt16(i: int) { -0x8000 <= i < 0x8000 }

  predicate IsInt32(i: int) { -0x8000_0000 <= i < 0x8000_0000 }

  predicate Encodable(d: Data) {
    && (d.Int? ==> IsInt32(d.i))
    && (d.Float? ==> |d.bits| == 4)
  }

  predicate AllEncodable(ds: seq<Data>) {
    forall i | 0 <= i < |ds| :: Encodable(ds[i])
  }

  function TypeOf(d: Data): nat {
    match d
    case True => TRUE
    case False => FALSE
    case Int(_) => INT
    case Float(_) => FLOAT
    case Str(_) => STR
    case Bytes(_) => BYTES
  }

  function Content(d: Data): seq<byte> {
    match d
    case True => []
    case False => []
    case Int(i) => SignedBytes(i, if IsInt8(i) then 1 else if IsInt16(i) then 2 else 4)
    case Float(bits) => bits
    case Str(s) => s
    case Bytes(s) => s
  }

  /** A header byte with type and size, then the content. */
  function Encoded(d: Data): seq<byte> {
    [(TypeOf(d) * 32 + |Content(d)|) % 256] + Content(d)
  }

  function EncodedAll(ds: seq<Data>): seq<byte> {
    if ds == [] then [] else Encoded(ds[0]) + EncodedAll(ds[1..])
  }

  function Payload(msg: Message): seq<byte>
    requires !msg.Nothing?
  {
    match msg
    case Single(d) => [SINGLE_OBJECT * 32] + Encoded(d)
    case Many(ds) => EncodedAll(ds)
  }

  function Values(msg: Message): seq<Data>
    requires !msg.Nothing?
  {
    match msg
    case Single(d) => [d]
    case Many(ds) => ds
  }

  /** The advertising data for a payload on a channel. */
  function Packet(payload: seq<byte>, channel: byte): seq<byte>
  {
    [(|payload| + 4) % 256, MFG_SPECIFIC] + LEGO_CID + [channel] + payload
  }

  /** Encodings as they go over the air, whose numbers must not change. */
  lemma WireFormat(s: seq<byte>, bits: seq<byte>)
    requires |s| < 32 && |bits| == 4
    ensures Encoded(True) == [0x20] && Encoded(False) == [0x40] && Encoded(Float(bits)) == [0x84] + bits
    ensures Encoded(Str(s)) == [0xA0 + |s|] + s && Encoded(Bytes(s)) == [0xC0 + |s|] + s
  {
  }

  /** The structure that carries a payload: length, type, company and channel. */
  lemma WireFormatOfPacket(payload: seq<byte>, channel: byte)
    requires |payload| <= 26
    ensures Packet(payload, channel) == [|payload| + 4, 0xFF, 0x97, 0x03, channel] + payload
  {
  }

  /** Integers in the fewest of one, two or four bytes, in two's complement, lowest byte first. */
  lemma WireFormatOfInts(i: int)
    ensures -0x80 <= i < 0x80 ==> Encoded(Int(i)) == [0x61, i % 256]
    ensures -0x8000 <= i < 0x8000 && !(-0x80 <= i < 0x80) ==> Encoded(Int(i)) == [0x62, i % 256, i / 256 % 256]
    ensures -0x8000_0000 <= i < 0x8000_0000 && !(-0x8000 <= i < 0x8000) ==>
              Encoded(Int(i)) == [0x64, i % 256, i / 256 % 256, i / 0x1_0000 % 256, i / 0x100_0000 % 256]
  {
    if -0x80 <= i < 0x80 {
      OneByte(i);
    } else if -0x8000 <= i < 0x8000 {
      TwoBytes(i);
    } else if -0x8000_0000 <= i < 0x8000_0000 {
      FourBytes(i);
    }
  }

  lemma OneByte(i: int)
    requires -0x80 <= i < 0x80
    ensures SignedBytes(i, 1) == [i % 256]
  {
    var x := if i < 0 then i + 0x100 else i;
    assert Span(1) == 0x100 && x == i % 0x100;
    assert Le(x, 1) == [x % 256] + Le(0, 0);
  }

  lemma TwoBytes(i: int)
    requires -0x8000 <= i < 0x8000
    ensures SignedBytes(i, 2) == [i % 256, i / 256 % 256]
  {
    var x := if i < 0 then i + 0x1_0000 else i;
    assert Span(1) == 0x100 && Span(2) == 0x1_0000;
    LeOfTwo(x);
  }

  lemma FourBytes(i: int)
    requires -0x8000_0000 <= i < 0x8000_0000
    ensures SignedBytes(i, 4) == [i % 256, i / 256 % 256, i / 0x1_0000 % 256, i / 0x100_0000 % 256]
  {
    var x := if i < 0 then i + 0x1_0000_0000 else i;
    SpanOfWord();
    LeOfFour(x);
    BytesOfWord(i, x);
  }

  lemma SpanOfWord()
    ensures Span(4) == 0x1_0000_0000
  {
    assert Span(1) == 0x100 && Span(2) == 0x1_0000 && Span(3) == 0x100_0000;
  }

  lemma BytesOfWord(i: int, x: nat)
    requires -0x8000_0000 <= i < 0x8000_0000 && x == if i < 0 then i + 0x1_0000_0000 else i
    ensures x % 256 == i % 256 && x / 256 % 256 == i / 256 % 256
    ensures x / 0x1_0000 % 256 == i / 0x1_0000 % 256 && x / 0x100_0000 == i / 0x100_0000 % 256
  {
    QuotientsOfWord(i);
    RemaindersAgree(i, 0x100_0000);
    RemaindersAgree(i / 256, 0x1_0000);
    RemaindersAgree(i / 0x1_0000, 0x100);
    RemaindersAgree(i / 0x100_0000, 1);
  }

  lemma QuotientsOfWord(i: int)
    ensures (i + 0x1_0000_0000) / 256 == i / 256 + 0x100_0000
    ensures (i + 0x1_0000_0000) / 0x1_0000 == i / 0x1_0000 + 0x1_0000
    ensures (i + 0x1_0000_0000) / 0x100_0000 == i / 0x100_0000 + 0x100
  {
  }

  lemma RemaindersAgree(x: int, q: int)
    ensures (x + q * 256) % 256 == x % 256
  {
  }

  /** A single value has a zero byte in front; a tuple is the sequence of its encodings. */
  lemma WireFormatOfMessages(ds: seq<Data>, d: Data)
    ensures Payload(Single(d)) == [0x00] + Encoded(d)
    ensures Payload(Many([])) == [] && Payload(Many(ds + [d])) == Payload(Many(ds)) + Encoded(d)
  {
    EncodedAllSnoc(ds + [d], |ds|);
    assert (ds + [d])[..|ds|] == ds && (ds + [d])[..|ds| + 1] == ds + [d];
  }

  /** Appends a header and its content behind the bytes written so far, if there is room. */
  method Append(dst: array<byte>, index: nat, src: seq<byte>, kind: nat) returns (r: Result<nat>)
    requires dst.Length == OVERHEAD + MAX_SIZE && index <= MAX_SIZE && kind < 8
    modifies dst
    ensures r.Err? <==> index + |src| + 1 > MAX_SIZE
    ensures r.Err? ==> r.error == ValueError && dst[..] == old(dst[..])
    ensures r.Ok? ==> r.value == index + |src| + 1
    ensures r.Ok? ==> dst[..OVERHEAD + r.value] == old(dst[..OVERHEAD + index]) + [(kind * 32 + |src|) % 256] + src
  {
    var next := index + |src| + 1;
    if next > MAX_SIZE {
      return Err(ValueError);
    }
    ghost var written := dst[..OVERHEAD + index];
    dst[OVERHEAD + index] := kind * 32 + |src|;
    forall i | 0 <= i < |src| {
      dst[OVERHEAD + index + 1 + i] := src[i];
    }
    assert dst[..OVERHEAD + next] == written + [(kind * 32 + |src|) % 256] + src;
    r := Ok(next);
  }

  /** The bytes to be copied and the type code, by the type of the value. */
  method Source(arg: Data) returns (src: seq<byte>, kind: nat)
    requires arg.Int? ==> IsInt32(arg.i)
    ensures src == Content(arg) && kind == TypeOf(arg)
  {
    match arg {
      case True => src, kind := [], TRUE;
      case False => src, kind := [], FALSE;
      case Int(i) =>
        kind := INT;
        if IsInt8(i) {
          src := SignedBytes(i, 1);
        } else if IsInt16(i) {
          src := SignedBytes(i, 2);
        } else {
          src := SignedBytes(i, 4);
        }
      case Float(bits) => src, kind := bits, FLOAT;
      case Str(s) => src, kind := s, STR;
      case Bytes(s) => src, kind := s, BYTES;
    }
  }

  /** Appends the encoding of one value. */
  method Encode(dst: array<byte>, index: nat, arg: Data) returns (r: Result<nat>)
    requires dst.Length == OVERHEAD + MAX_SIZE && index <= MAX_SIZE
    requires arg.Float? ==> |arg.bits| == 4
    modifies dst
    ensures r.Err? <==> !Encodable(arg) || index + |Encoded(arg)| > MAX_SIZE
    ensures r.Err? ==> r.error == if Encodable(arg) then ValueError else OverflowError
    ensures r.Ok? ==> r.value == index + |Encoded(arg)| <= MAX_SIZE
    ensures r.Ok? ==> dst[..OVERHEAD + r.value] == old(dst[..OVERHEAD + index]) + Encoded(arg)
  {
    if arg.Int? && !IsInt32(arg.i) {
      return Err(OverflowError);
    }
    var src, kind := Source(arg);
    ghost var head := dst[..OVERHEAD + index];
    r := Append(dst, index, src, kind);
    Associates(head, [(kind * 32 + |src|) % 256], src);
  }

  /** Appends the n-th object behind the encodings of those before it. */
  method EncodeNext(data: array<byte>, index: nat, objs: seq<Data>, n: nat, ghost head: seq<byte>)
    returns (r: Result<nat>)
    requires data.Length == OVERHEAD + MAX_SIZE && index <= MAX_SIZE && OVERHEAD <= |head|
    requires n < |objs| && (objs[n].Float? ==> |objs[n].bits| == 4)
    requires data[..OVERHEAD + index] == head + EncodedAll(objs[..n])
    modifies data
    ensures r.Ok? ==>
              && Encodable(objs[n]) && OVERHEAD + r.value == |head| + |EncodedAll(objs[..n + 1])| && r.value <= MAX_SIZE
              && data[..OVERHEAD + r.value] == head + EncodedAll(objs[..n + 1])
    ensures r.Err? ==>
              !Encodable(objs[n]) || (r.error == ValueError && |head| + |EncodedAll(objs)| > OVERHEAD + MAX_SIZE)
  {
    EncodedNext(head, objs, n);
    r := Encode(data, index, objs[n]);
  }

  /** Appends all objects, stopping at the first that cannot be encoded or does not fit. */
  method EncodeObjects(data: array<byte>, start: nat, objs: seq<Data>) returns (r: Result<nat>)
    requires data.Length == OVERHEAD + MAX_SIZE && start <= MAX_SIZE
    requires forall i | 0 <= i < |objs| && objs[i].Float? :: |objs[i].bits| == 4
    modifies data
    ensures r.Ok? ==>
              && AllEncodable(objs) && r.value == start + |EncodedAll(objs)| <= MAX_SIZE
              && data[..OVERHEAD + r.value] == old(data[..OVERHEAD + start]) + EncodedAll(objs)
    ensures r.Err? ==> !AllEncodable(objs) || (r.error == ValueError && start + |EncodedAll(objs)| > MAX_SIZE)
  {
    var index: nat := start;
    ghost var head := data[..OVERHEAD + start];
    for n := 0 to |objs|
      invariant index <= MAX_SIZE
      invariant data[..OVERHEAD + index] == head + EncodedAll(objs[..n])
      invariant forall i | 0 <= i < n :: Encodable(objs[i])
    {
      var next := EncodeNext(data, index, objs, n, head);
      if next.Err? {
        return Err(next.error);
      }
      index := next.value;
    }
    assert objs[..|objs|] == objs;
    assert |data[..OVERHEAD + index]| == |head| + |EncodedAll(objs)|;
    r := Ok(index);
  }

  lemma Associates(a: seq<byte>, b: seq<byte>, c: seq<byte>)
    ensures a + b + c == a + (b + c)
  {
  }

  lemma {:induction false} EncodedAllSnoc(ds: seq<Data>, n: nat)
    requires n < |ds|
    ensures EncodedAll(ds[..n + 1]) == EncodedAll(ds[..n]) + Encoded(ds[n])
  {
    assert ds[..n + 1][0] == ds[0] && ds[..n + 1][1..] == ds[1..][..n];
    if n > 0 {
      assert ds[..n][0] == ds[0] && ds[..n][1..] == ds[1..][..n - 1];
      EncodedAllSnoc(ds[1..], n - 1);
      Associates(Encoded(ds[0]), EncodedAll(ds[1..][..n - 1]), Encoded(ds[n]));
    }
  }

  lemma EncodedNext(head: seq<byte>, ds: seq<Data>, n: nat)
    requires n < |ds|
    ensures head + EncodedAll(ds[..n + 1]) == head + EncodedAll(ds[..n]) + Encoded(ds[n])
    ensures |EncodedAll(ds[..n])| + |Encoded(ds[n])| == |EncodedAll(ds[..n + 1])| <= |EncodedAll(ds)|
  {
    EncodedAllSnoc(ds, n);
    EncodedAllGrows(ds, n + 1);
  }

  /** The advertising data that broadcast() hands to the radio. It is refused exactly if it does not fit. */
  method Broadcast(msg: Message, channel: byte) returns (r: Result<seq<byte>>)
    requires !msg.Nothing?
    requires forall i | 0 <= i < |Values(msg)| && Values(msg)[i].Float? :: |Values(msg)[i].bits| == 4
    ensures AllEncodable(Values(msg)) ==>
              r == if |Payload(msg)| <= MAX_SIZE then Ok(Packet(Payload(msg), channel)) else Err(ValueError)
    ensures !AllEncodable(Values(msg)) ==> r.Err?
  {
    var data := new byte[OVERHEAD + MAX_SIZE];
    var index := 0;
    if msg.Single? {
      data[OVERHEAD] := SINGLE_OBJECT * 32;
      index := 1;
    }
    ghost var head := data[..OVERHEAD + index];
    assert head[OVERHEAD..] == if msg.Single? then [SINGLE_OBJECT * 32] else [];
    PayloadIsMarkerAndValues(msg);
    var end := EncodeObjects(data, index, Values(msg));
    if end.Err? {
      return Err(end.error);
    }
    index := end.value;
    DropOverhead(data[..OVERHEAD + index], head, EncodedAll(Values(msg)));
    FillHeader(data, index, channel, Payload(msg));
    r := Ok(data[..OVERHEAD + index]);
  }

  lemma DropOverhead(written: seq<byte>, head: seq<byte>, all: seq<byte>)
    requires written == head + all && OVERHEAD <= |head|
    ensures written[OVERHEAD..] == head[OVERHEAD..] + all
  {
  }

  method FillHeader(data: array<byte>, index: nat, channel: byte, ghost payload: seq<byte>)
    requires data.Length == OVERHEAD + MAX_SIZE && index <= MAX_SIZE
    requires data[..OVERHEAD + index][OVERHEAD..] == payload
    modifies data
    ensures data[..OVERHEAD + index] == Packet(payload, channel)
  {
    assert data[OVERHEAD..OVERHEAD + index] == payload;
    data[0] := index + 4;
    data[1] := MFG_SPECIFIC;
    data[2], data[3] := LEGO_CID[0], LEGO_CID[1];
    data[4] := channel;
    assert data[OVERHEAD..OVERHEAD + index] == payload;
    assert data[..OVERHEAD] == [index + 4, MFG_SPECIFIC] + LEGO_CID + [channel];
    assert data[..OVERHEAD + index] == data[..OVERHEAD] + data[OVERHEAD..OVERHEAD + index];
  }

  lemma PayloadIsMarkerAndValues(msg: Message)
    requires !msg.Nothing?
    ensures Payload(msg) == (if msg.Single? then [SINGLE_OBJECT * 32] else []) + EncodedAll(Values(msg))
  {
    if msg.Single? {
      assert EncodedAll([]) == [];
    }
  }

  lemma {:induction false} EncodedAllGrows(ds: seq<Data>, n: nat)
    requires n <= |ds|
    ensures |EncodedAll(ds[..n])| <= |EncodedAll(ds)|
    decreases |ds| - n
  {
    if n < |ds| {
      EncodedAllSnoc(ds, n);
      EncodedAllGrows(ds, n + 1);
    } else {
      assert ds[..n] == ds;
    }
  }

  // ---------- Decoding ----------

  /** A value takes at most its header and 31 more bytes, and at most 26 values are decoded. */
  const MAX_VALUE: nat := 32

  const REACH: nat := MAX_SIZE * MAX_VALUE

  /** How many bytes the decoder reads behind a header. */
  function ContentSize(header: byte): (n: nat)
    ensures n < MAX_VALUE
  {
    if header / 32 == FLOAT then 4
    else if header / 32 in {INT, STR, BYTES} then header % 32
    else 0
  }

  /** The value of a type with its content, or the error for bad data. */
  function ValueOf(kind: nat, content: seq<byte>): Result<Data> {
    if kind == TRUE then Ok(True)
    else if kind == FALSE then Ok(False)
    else if kind == INT && |content| in {1, 2, 4} then Ok(Int(FromSigned(content)))
    else if kind == FLOAT then Ok(Float(content))
    else if kind == STR then Ok(Str(content))
    else if kind == BYTES then Ok(Bytes(content))
    else Err(RuntimeError)
  }

  function NextAt(mem: seq<byte>, index: nat): (next: nat)
    requires index + MAX_VALUE <= |mem|
    ensures index < next <= index + MAX_VALUE
  {
    index + 1 + ContentSize(mem[index])
  }

  /**
    The value at an index. The memory is that of the received data and whatever lies behind it, which
    a header can make the decoder read.
   */
  function ValueAt(mem: seq<byte>, index: nat): Result<Data>
    requires index + MAX_VALUE <= |mem|
  {
    ValueOf(mem[index] / 32, mem[index + 1..NextAt(mem, index)])
  }

  /** At most `count` values from an index up to the recorded size. */
  function DecodeAll(mem: seq<byte>, size: nat, index: nat, count: nat): Result<seq<Data>>
    requires index + count * MAX_VALUE <= |mem|
    decreases count
  {
    if count == 0 || index >= size then Ok([])
    else Prepended(ValueAt(mem, index), DecodeAll(mem, size, NextAt(mem, index), count - 1))
  }

  /** The first error wins. */
  function Prepended(first: Result<Data>, rest: Result<seq<Data>>): Result<seq<Data>> {
    if first.Err? then Err(first.error)
    else if rest.Err? then Err(rest.error)
    else Ok([first.value] + rest.value)
  }

  lemma IntRoundTrip(i: int)
    requires IsInt32(i)
    ensures FromSigned(Content(Int(i))) == i && |Content(Int(i))| in {1, 2, 4}
  {
    assert Span(0) == 1 && Span(1) == 0x100 && Span(2) == 0x1_0000 && Span(3) == 0x100_0000 && Span(4) == 0x1_0000_0000;
    SignedRoundTrip(i, if IsInt8(i) then 1 else if IsInt16(i) then 2 else 4);
  }

  lemma HeaderRoundTrip(d: Data)
    requires Encodable(d) && |Content(d)| < 32
    ensures Encoded(d)[0] / 32 == TypeOf(d) && ContentSize(Encoded(d)[0]) == |Content(d)|
  {
    var header := Encoded(d)[0];
    assert header == TypeOf(d) * 32 + |Content(d)|;
    assert header / 32 == TypeOf(d) && header % 32 == |Content(d)|;
  }

  lemma DecodeEncoded(mem: seq<byte>, index: nat, d: Data)
    requires Encodable(d) && |Content(d)| < 32
    requires index + MAX_VALUE <= |mem| && mem[index..index + |Encoded(d)|] == Encoded(d)
    ensures ValueAt(mem, index) == Ok(d) && NextAt(mem, index) == index + |Encoded(d)|
  {
    HeaderRoundTrip(d);
    assert mem[index] == Encoded(d)[0];
    assert mem[index + 1..index + |Encoded(d)|] == mem[index..index + |Encoded(d)|][1..] == Content(d);
    if d.Int? {
      IntRoundTrip(d.i);
    }
  }

  /** Every value takes at least one byte. */
  lemma {:induction false} EncodedAllAtLeast(ds: seq<Data>)
    ensures |ds| <= |EncodedAll(ds)|
  {
    if ds != [] {
      EncodedAllAtLeast(ds[1..]);
    }
  }

  lemma SplitSlice(data: seq<byte>, index: nat, size: nat, first: seq<byte>, rest: seq<byte>)
    requires index <= size <= |data| && data[index..size] == first + rest
    ensures index + |first| <= size
    ensures data[index..index + |first|] == first && data[index + |first|..size] == rest
  {
    assert data[index..index + |first|] == data[index..size][..|first|];
    assert data[index + |first|..size] == data[index..size][|first|..];
  }

  /** The first of some encoded values. */
  lemma FirstDecoded(mem: seq<byte>, size: nat, index: nat, ds: seq<Data>)
    requires ds != [] && AllEncodable(ds)
    requires index + |EncodedAll(ds)| == size <= MAX_SIZE && size <= |mem| && mem[index..size] == EncodedAll(ds)
    requires index + MAX_VALUE <= |mem|
    ensures ValueAt(mem, index) == Ok(ds[0])
    ensures NextAt(mem, index) + |EncodedAll(ds[1..])| == size
    ensures mem[NextAt(mem, index)..size] == EncodedAll(ds[1..]) && AllEncodable(ds[1..])
  {
    SplitSlice(mem, index, size, Encoded(ds[0]), EncodedAll(ds[1..]));
    DecodeEncoded(mem, index, ds[0]);
  }

  /** The values decoded one after another from an index on end at the recorded size. */
  ghost predicate DecodesTo(mem: seq<byte>, size: nat, index: nat, ds: seq<Data>)
    requires index + |ds| * MAX_VALUE <= |mem|
    decreases |ds|
  {
    if ds == [] then index == size
    else index < size && ValueAt(mem, index) == Ok(ds[0]) && DecodesTo(mem, size, NextAt(mem, index), ds[1..])
  }

  lemma {:induction false} EncodedDecodesTo(mem: seq<byte>, size: nat, index: nat, ds: seq<Data>)
    requires index + |ds| * MAX_VALUE <= |mem|
    requires index + |EncodedAll(ds)| == size <= MAX_SIZE && size <= |mem| && mem[index..size] == EncodedAll(ds)
    requires AllEncodable(ds)
    ensures DecodesTo(mem, size, index, ds)
    decreases |ds|
  {
    if ds != [] {
      FirstDecoded(mem, size, index, ds);
      EncodedDecodesTo(mem, size, NextAt(mem, index), ds[1..]);
    }
  }

  lemma {:induction false} DecodeAllIs(mem: seq<byte>, size: nat, index: nat, count: nat, ds: seq<Data>)
    requires |ds| <= count && index + count * MAX_VALUE <= |mem|
    requires DecodesTo(mem, size, index, ds)
    ensures DecodeAll(mem, size, index, count) == Ok(ds)
    decreases |ds|
  {
    if ds != [] {
      DecodeAllIs(mem, size, NextAt(mem, index), count - 1, ds[1..]);
      assert [ds[0]] + ds[1..] == ds;
    }
  }

  /** Exactly these headers are bad data: no type code, or an integer of another width. */
  lemma BadHeaders(mem: seq<byte>, index: nat)
    requires index + MAX_VALUE <= |mem|
    ensures ValueAt(mem, index).Err? <==>
            mem[index] < 0x20 || mem[index] >= 0xE0 || (0x60 <= mem[index] < 0x80 && mem[index] !in {0x61, 0x62, 0x64})
    ensures ValueAt(mem, index).Err? ==> ValueAt(mem, index).error == RuntimeError
  {
  }

  /** Where the k-th value behind an index begins. */
  function IndexAfter(mem: seq<byte>, index: nat, k: nat): (i: nat)
    requires index + k * MAX_VALUE <= |mem|
    ensures i <= index + k * MAX_VALUE
    decreases k
  {
    if k == 0 then index else IndexAfter(mem, NextAt(mem, index), k - 1)
  }

  /** A tuple is refused if any value in it is bad. */
  lemma {:induction false} BadValueIsRefused(mem: seq<byte>, size: nat, index: nat, count: nat, k: nat)
    requires k < count && index + count * MAX_VALUE <= |mem|
    requires IndexAfter(mem, index, k) < size && ValueAt(mem, IndexAfter(mem, index, k)).Err?
    ensures DecodeAll(mem, size, index, count) == Err(RuntimeError)
    decreases k
  {
    BadHeaders(mem, index);
    IndexGrows(mem, index, k);
    if k > 0 {
      BadValueIsRefused(mem, size, NextAt(mem, index), count - 1, k - 1);
    }
  }

  lemma {:induction false} IndexGrows(mem: seq<byte>, index: nat, k: nat)
    requires index + k * MAX_VALUE <= |mem|
    ensures index <= IndexAfter(mem, index, k)
    decreases k
  {
    if k > 0 {
      IndexGrows(mem, NextAt(mem, index), k - 1);
    }
  }

  /** What observe() makes of a recorded payload: one value if it is marked so, and else a tuple. */
  function DecodePayload(mem: seq<byte>, size: nat): Result<Message>
    requires REACH <= |mem|
  {
    if size != 0 && mem[0] / 32 == SINGLE_OBJECT then
      var r := ValueAt(mem, 1);
      if r.Err? then Err(r.error) else Ok(Single(r.value))
    else
      var r := DecodeAll(mem, size, 0, MAX_SIZE);
      if r.Err? then Err(r.error) else Ok(Many(r.value))
  }

  /**
    The round trip of the codec. A payload that fits comes back as exactly the value or tuple that
    was encoded, whatever bytes lie behind the recorded size.
   */
  lemma PayloadRoundTrip(msg: Message, mem: seq<byte>)
    requires !msg.Nothing? && |Payload(msg)| <= MAX_SIZE && REACH <= |mem|
    requires mem[..|Payload(msg)|] == Payload(msg)
    requires AllEncodable(Values(msg))
    ensures DecodePayload(mem, |Payload(msg)|) == Ok(msg)
  {
    match msg
    case Single(d) =>
      assert Values(msg)[0] == d;
      assert mem[0] == Payload(msg)[0];
      assert mem[1..1 + |Encoded(d)|] == mem[..|Payload(msg)|][1..] == Encoded(d);
      DecodeEncoded(mem, 1, d);
    case Many(ds) =>
      assert mem[0..|Payload(msg)|] == mem[..|Payload(msg)|];
      EncodedAllAtLeast(ds);
      EncodedDecodesTo(mem, |Payload(msg)|, 0, ds);
      DecodeAllIs(mem, |Payload(msg)|, 0, MAX_SIZE, ds);
      if ds != [] {
        assert mem[0] == Payload(msg)[0] == Encoded(ds[0])[0];
      }
  }

  /** Two different messages never have the same payload; in particular x and (x,) differ. */
  lemma PayloadInjective(x: Message, y: Message)
    requires !x.Nothing? && !y.Nothing? && |Payload(x)| <= MAX_SIZE
    requires AllEncodable(Values(x))
    requires AllEncodable(Values(y))
    requires Payload(x) == Payload(y)
    ensures x == y
  {
    var data := Payload(x) + seq(REACH, _ => 0);
    PayloadRoundTrip(x, data);
    PayloadRoundTrip(y, data);
  }

  /** The decoder as the code runs it, with an index that it advances. */
  method Decode(mem: seq<byte>, index: nat) returns (r: Result<Data>, next: nat)
    requires index + MAX_VALUE <= |mem|
    ensures r == ValueAt(mem, index)
    ensures r.Ok? ==> next == NextAt(mem, index)
  {
    var size := mem[index] % 32;
    var kind := mem[index] / 32;
    next := index + 1;
    if kind == TRUE {
      return Ok(True), next;
    } else if kind == FALSE {
      return Ok(False), next;
    } else if kind == INT && (size == 1 || size == 2 || size == 4) {
      next := next + size;
      return Ok(Int(FromSigned(mem[index + 1..next]))), next;
    } else if kind == FLOAT {
      next := next + 4;
      return Ok(Float(mem[index + 1..next])), next;
    } else if kind == STR {
      next := next + size;
      return Ok(Str(mem[index + 1..next])), next;
    } else if kind == BYTES {
      next := next + size;
      return Ok(Bytes(mem[index + 1..next])), next;
    }
    r := Err(RuntimeError);
  }

  /** The decoding part of observe(). */
  method DecodeMessage(mem: seq<byte>, size: byte) returns (r: Result<Message>)
    requires REACH <= |mem|
    ensures r == DecodePayload(mem, size)
  {
    if size != 0 && mem[0] / 32 == SINGLE_OBJECT {
      var one, _ := Decode(mem, 1);
      return if one.Err? then Err(one.error) else Ok(Single(one.value));
    }
    var items: seq<Data> := [];
    var index: nat, i: nat := 0, 0;
    ghost var all := DecodeAll(mem, size, 0, MAX_SIZE);
    assert all.Ok? ==> [] + all.value == all.value;
    while i < MAX_SIZE && index < size
      invariant i <= MAX_SIZE && index + (MAX_SIZE - i) * MAX_VALUE <= |mem|
      invariant all == Prefixed(items, DecodeAll(mem, size, index, MAX_SIZE - i))
      decreases MAX_SIZE - i
    {
      PrefixedStep(items, mem, size, index, MAX_SIZE - i);
      var item;
      item, index := Decode(mem, index);
      if item.Err? {
        return Err(item.error);
      }
      items, i := items + [item.value], i + 1;
    }
    assert items + [] == items;
    r := Ok(Many(items));
  }

  function Prefixed(items: seq<Data>, rest: Result<seq<Data>>): Result<seq<Data>> {
    match rest
    case Ok(ds) => Ok(items + ds)
    case Err(e) => Err(e)
  }

  lemma PrefixedStep(items: seq<Data>, mem: seq<byte>, size: nat, index: nat, count: nat)
    requires index + count * MAX_VALUE <= |mem| && index < size && count > 0
    ensures var first := ValueAt(mem, index);
            Prefixed(items, DecodeAll(mem, size, index, count)) ==
            if first.Err? then Err(first.error)
            else Prefixed(items + [first.value], DecodeAll(mem, size, NextAt(mem, index), count - 1))
  {
    var first := ValueAt(mem, index);
    var rest := DecodeAll(mem, size, NextAt(mem, index), count - 1);
    if first.Ok? && rest.Ok? {
      assert items + ([first.value] + rest.value) == items + [first.value] + rest.value;
    }
  }
}
