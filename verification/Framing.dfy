/** The frames of the network probe (robot/network_probe.go:243-300) and the decoder behind the reader
    (robot/vendor/github.com/luyuancpp/muduoclient/muduo/codec.go:70-107). */
module Framing {
  import opened Ints

  type byte = x: int | 0 <= x < 256

  const MIN_FRAME: int := 10
  const MAX_FRAME: int := 64 * 1024
  const ADLER_MOD: int := 65521

  // ------------------------------------------------------------------ big-endian words

  function PutWord(x: uint32): (r: seq<byte>)
    ensures |r| == 4
  {
    [x / 0x100_0000, x / 0x1_0000 % 256, x / 256 % 256, x % 256]
  }

  function GetWord(s: seq<byte>): uint32
    requires |s| == 4
  {
    var a: int, b: int, c: int, d: int := s[0], s[1], s[2], s[3];
    ((a * 256 + b) * 256 + c) * 256 + d
  }

  lemma WordRoundTrip(x: uint32)
    ensures GetWord(PutWord(x)) == x
  {
    var hi, mid, low := x / 0x1_0000, x / 256, x % 256;
    assert mid / 256 == hi && hi / 256 == x / 0x100_0000;
  }

  /** The first byte of a word is its most significant one. */
  lemma WordIsBigEndian(x: uint32)
    ensures
      var a: int, b: int, c: int, d: int := PutWord(x)[0], PutWord(x)[1], PutWord(x)[2], PutWord(x)[3];
      x == a * 16777216 + b * 65536 + c * 256 + d
  {
    WordRoundTrip(x);
  }

  // ------------------------------------------------------------------ Adler-32, section 2.2 of RFC 1950

  /** The two running sums after some bytes: s1 sums the bytes from 1, s2 sums the values of s1. */
  function AdlerSums(data: seq<byte>): (s: (nat, nat))
    ensures s.0 < ADLER_MOD && s.1 < ADLER_MOD
  {
    if data == [] then (1, 0)
    else
      var before := AdlerSums(data[..|data| - 1]);
      var s1 := (before.0 + data[|data| - 1]) % ADLER_MOD;
      (s1, (before.1 + s1) % ADLER_MOD)
  }

  function Adler32(data: seq<byte>): uint32 {
    AdlerSums(data).1 * 0x1_0000 + AdlerSums(data).0
  }

  method ComputeAdler32(data: seq<byte>) returns (sum: uint32)
    ensures sum == Adler32(data)
  {
    var s1, s2 := 1, 0;
    for n := 0 to |data|
      invariant (s1, s2) == AdlerSums(data[..n])
    {
      assert data[..n + 1][..n] == data[..n];
      s1 := (s1 + data[n]) % ADLER_MOD;
      s2 := (s2 + s1) % ADLER_MOD;
    }
    assert data[..|data|] == data;
    sum := s2 * 0x1_0000 + s1;
  }

  function Sum(data: seq<byte>): nat {
    if data == [] then 0 else Sum(data[..|data| - 1]) + data[|data| - 1]
  }

  lemma AddMod(x: nat, y: nat)
    ensures (x % ADLER_MOD + y) % ADLER_MOD == (x + y) % ADLER_MOD
  {
  }

  lemma {:induction false} LowSumIsSum(data: seq<byte>)
    ensures AdlerSums(data).0 == (1 + Sum(data)) % ADLER_MOD
  {
    if data != [] {
      LowSumIsSum(data[..|data| - 1]);
      AddMod(1 + Sum(data[..|data| - 1]), data[|data| - 1]);
    }
  }

  lemma {:induction false} SumAfterChange(data: seq<byte>, i: nat, b: byte)
    requires i < |data|
    ensures Sum(data[i := b]) == Sum(data) - data[i] + b
  {
    var n := |data| - 1;
    if i == n {
      assert data[i := b][..n] == data[..n];
    } else {
      SumAfterChange(data[..n], i, b);
      assert data[i := b][..n] == data[..n][i := b];
    }
  }

  /** Every byte weighted by how many bytes there are from it to the end. */
  function WeightedSum(data: seq<byte>): nat {
    if data == [] then 0 else |data| * data[0] + WeightedSum(data[1..])
  }

  lemma {:induction false} SumFromFront(data: seq<byte>)
    requires data != []
    ensures Sum(data) == data[0] + Sum(data[1..])
  {
    var n := |data| - 1;
    if n > 0 {
      SumFromFront(data[..n]);
      assert data[..n][1..] == data[1..][..n - 1];
    }
  }

  /** One more byte at the end adds one to every weight, and itself. */
  lemma {:induction false} WeightedGrows(data: seq<byte>)
    requires data != []
    ensures WeightedSum(data) == WeightedSum(data[..|data| - 1]) + Sum(data)
  {
    var n := |data| - 1;
    if n == 0 {
      assert data[..0] == [] && data[1..] == [];
    } else {
      var front: int, rest := data[0], data[1..];
      WeightedGrows(rest);
      SumFromFront(data);
      assert rest[..n - 1] == data[..n][1..] && data[..n][0] == data[0];
      assert |data| * front == n * front + front;
    }
  }

  lemma {:induction false} HighSumIsWeighted(data: seq<byte>)
    ensures AdlerSums(data).1 == (|data| + WeightedSum(data)) % ADLER_MOD
  {
    if data != [] {
      var before := data[..|data| - 1];
      HighSumIsWeighted(before);
      LowSumIsSum(data);
      WeightedGrows(data);
      AddMods(|before| + WeightedSum(before), 1 + Sum(data));
    }
  }

  lemma AddMods(x: nat, y: nat)
    ensures (x % ADLER_MOD + y % ADLER_MOD) % ADLER_MOD == (x + y) % ADLER_MOD
  {
  }

  /** The checksum in closed form: the byte sum in its low half, the weighted byte sum in its high half. */
  lemma Adler32InClosedForm(data: seq<byte>)
    ensures Adler32(data) == (|data| + WeightedSum(data)) % 65521 * 65536 + (1 + Sum(data)) % 65521
  {
    LowSumIsSum(data);
    HighSumIsWeighted(data);
  }

  lemma ModDiffers(x: nat, y: nat)
    requires 0 < y - x < ADLER_MOD || 0 < x - y < ADLER_MOD
    ensures x % ADLER_MOD != y % ADLER_MOD
  {
  }

  lemma LowHalf(data: seq<byte>)
    ensures Adler32(data) % 0x1_0000 == AdlerSums(data).0
  {
  }

  /** Any change of one byte changes the checksum. */
  lemma ByteChangeIsSeen(data: seq<byte>, i: nat, b: byte)
    requires i < |data| && data[i] != b
    ensures Adler32(data[i := b]) != Adler32(data)
  {
    SumAfterChange(data, i, b);
    LowSumIsSum(data);
    LowSumIsSum(data[i := b]);
    ModDiffers(1 + Sum(data), 1 + Sum(data[i := b]));
    LowHalf(data);
    LowHalf(data[i := b]);
  }

  // ------------------------------------------------------------------ frames

  datatype Message = Message(name: seq<byte>, body: seq<byte>)

  /** What the reader's bounds leave room for: a name, and name with terminator plus body at most 65528 bytes. */
  predicate Fits(m: Message) {
    |m.name| >= 1 && |m.name| + 1 + |m.body| <= MAX_FRAME - 8
  }

  const WORDS: int := 0x1_0000_0000

  /** The conversion of a length to 32 bits keeps the low bits. */
  function ToUint32(n: nat): uint32 {
    if n < WORDS then n else n % WORDS
  }

  function Payload(m: Message): seq<byte> {
    PutWord(ToUint32(|m.name| + 1)) + m.name + [0] + m.body
  }

  /** The length counts the payload and the checksum, but not itself. */
  function Assemble(payload: seq<byte>, sum: seq<byte>): seq<byte> {
    PutWord(ToUint32(|payload| + 4)) + payload + sum
  }

  function Frame(m: Message): seq<byte> {
    Assemble(Payload(m), PutWord(Adler32(Payload(m))))
  }

  /** A frame byte by byte: the length of what follows it, the length of the name with its terminator, both big-endian,
      the name, a zero, the body, and the checksum of all from the name length to the body. */
  lemma FrameOnBytes(m: Message)
    requires |m.name| + |m.body| + 9 < 0x1_0000_0000
    ensures
      var f, n, b := Frame(m), |m.name|, |m.body|;
      && |f| == n + b + 13
      && f[..4] == PutWord(n + b + 9) && f[4..8] == PutWord(n + 1)
      && f[8..8 + n] == m.name && f[8 + n] == 0 && f[9 + n..9 + n + b] == m.body
      && f[9 + n + b..] == PutWord(Adler32(f[4..9 + n + b]))
  {
    var payload, n, b := Payload(m), |m.name|, |m.body|;
    assert payload[..4] == PutWord(n + 1) && payload[4..4 + n] == m.name;
    assert payload[4 + n] == 0 && payload[5 + n..] == m.body;
    AssembledOnBytes(payload, PutWord(Adler32(payload)));
  }

  lemma AssembledOnBytes(payload: seq<byte>, sum: seq<byte>)
    requires |payload| + 4 < WORDS && |sum| == 4
    ensures
      var f, size := Assemble(payload, sum), |payload| + 4;
      && |f| == size + 4 && f[..4] == PutWord(size) && f[4..size] == payload && f[size..] == sum
      && forall i, j :: 0 <= i <= j <= |payload| ==> f[4 + i..4 + j] == payload[i..j]
  {
  }

  /** encodeNetworkProbeFrame: the frame grows by appending, the checksum covers all but the length. */
  method Encode(m: Message) returns (frame: seq<byte>)
    ensures frame == Frame(m)
  {
    var nameLen := |m.name| + 1;
    frame := PutWord(ToUint32(4 + nameLen + |m.body| + 4));
    frame := frame + PutWord(ToUint32(nameLen));
    frame := frame + m.name;
    frame := frame + [0];
    frame := frame + m.body;
    var sum := ComputeAdler32(frame[4..]);
    assert frame[4..] == Payload(m);
    frame := frame + PutWord(sum);
  }

  /** The message registry and the protobuf decoder: any names known, any bodies that decode under them. */
  datatype Codec = Codec(known: seq<byte> -> bool, decodes: Message -> bool)

  predicate Understood(codec: Codec, m: Message) { codec.known(m.name) && codec.decodes(m) }

  datatype ReadResult =
    | Read(message: Message, checksumOk: bool, rest: seq<byte>)
    | EndOfStream | BadSize | BadNameLength | UnknownName | BadBody

  /** The decoder's order: the name is looked up, the body decoded, and then the checksum compared for a log line. */
  function Decoded(codec: Codec, m: Message, checksumOk: bool, rest: seq<byte>): ReadResult {
    if !codec.known(m.name) then UnknownName
    else if !codec.decodes(m) then BadBody
    else Read(m, checksumOk, rest)
  }

  /** readNetworkProbeFrame and the decoder behind it, on the bytes the connection will deliver. The bounds
      checked here are what keeps every slice below in range. */
  method ReadFrame(stream: seq<byte>, codec: Codec) returns (r: ReadResult)
    ensures r == Parse(stream, codec)
  {
    if |stream| < 4 { return EndOfStream; }
    var size := GetWord(stream[..4]);
    if size < MIN_FRAME || size > MAX_FRAME { return BadSize; }
    if |stream| < 4 + size { return EndOfStream; }
    var frame := stream[..4 + size];
    var nameLen := GetWord(frame[4..8]);
    if nameLen < 2 || nameLen > size - 8 { return BadNameLength; }
    var nameEnd := 8 + nameLen;
    var message := Message(frame[8..nameEnd - 1], frame[nameEnd..size]);
    if !codec.known(message.name) { return UnknownName; }
    if !codec.decodes(message) { return BadBody; }
    var calculated := ComputeAdler32(frame[4..size]);
    var expected := GetWord(frame[size..size + 4]);
    return Read(message, calculated == expected, stream[4 + size..]);
  }

  /** The declarative reading of a stream: sizes in bounds, then the parts by position. */
  function Parse(stream: seq<byte>, codec: Codec): ReadResult {
    if |stream| < 4 then EndOfStream
    else
      var size := GetWord(stream[..4]);
      if size < MIN_FRAME || size > MAX_FRAME then BadSize
      else if |stream| < 4 + size then EndOfStream
      else
        var nameLen := GetWord(stream[..4 + size][4..8]);
        if nameLen < 2 || nameLen > size - 8 then BadNameLength
        else
          var frame := stream[..4 + size];
          Decoded(codec, Message(frame[8..8 + nameLen - 1], frame[8 + nameLen..size]),
                  Adler32(frame[4..size]) == GetWord(frame[size..size + 4]),
                  stream[4 + size..])
  }

  /** What the parts of a frame say, whatever its checksum field holds. */
  function Reading(payload: seq<byte>, sum: seq<byte>, rest: seq<byte>, codec: Codec): ReadResult
    requires 6 <= |payload| && |sum| == 4
  {
    if NameFits(payload) then Decoded(codec, MessageIn(payload), Adler32(payload) == GetWord(sum), rest)
    else BadNameLength
  }

  /** The payload's name length leaves a name, and ends inside the payload. */
  predicate NameFits(payload: seq<byte>)
    requires 6 <= |payload|
  {
    2 <= GetWord(payload[..4]) <= |payload| - 4
  }

  function MessageIn(payload: seq<byte>): Message
    requires 6 <= |payload| && NameFits(payload)
  {
    var nameLen := GetWord(payload[..4]);
    Message(payload[4..4 + nameLen - 1], payload[4 + nameLen..])
  }

  /** The reader's slices of an assembled frame are its parts. */
  lemma ParseAssembled(payload: seq<byte>, sum: seq<byte>, rest: seq<byte>, codec: Codec)
    requires 6 <= |payload| <= MAX_FRAME - 4 && |sum| == 4
    ensures Parse(Assemble(payload, sum) + rest, codec) == Reading(payload, sum, rest, codec)
  {
    var size, nameLen := |payload| + 4, GetWord(payload[..4]);
    var frame := Assemble(payload, sum);
    var stream := frame + rest;
    WordRoundTrip(size);
    assert stream[..4] == PutWord(size);
    assert stream[..4 + size] == frame && stream[4 + size..] == rest;
    assert frame[4..size] == payload && frame[4..8] == payload[..4] && frame[size..size + 4] == sum;
    if 2 <= nameLen <= |payload| - 4 {
      assert frame[8..8 + nameLen - 1] == payload[4..4 + nameLen - 1];
      assert frame[8 + nameLen..size] == payload[4 + nameLen..];
    }
  }

  /** Whatever the payload and the checksum field hold, a frame is handed on if and only if its name length fits,
      its name is known and its body decodes; the checksum has no part in it. */
  lemma HandedOnIff(payload: seq<byte>, sum: seq<byte>, rest: seq<byte>, codec: Codec)
    requires 6 <= |payload| <= MAX_FRAME - 4 && |sum| == 4
    ensures
      var r := Parse(Assemble(payload, sum) + rest, codec);
      && (r.Read? <==> NameFits(payload) && Understood(codec, MessageIn(payload)))
      && (r.Read? ==> r == Read(MessageIn(payload), Adler32(payload) == GetWord(sum), rest))
  {
    ParseAssembled(payload, sum, rest, codec);
  }

  lemma PayloadParts(m: Message)
    requires Fits(m)
    ensures |Payload(m)| == 4 + |m.name| + 1 + |m.body|
    ensures GetWord(Payload(m)[..4]) == |m.name| + 1
    ensures Payload(m)[4..4 + |m.name|] == m.name && Payload(m)[4 + |m.name| + 1..] == m.body
  {
    WordRoundTrip(|m.name| + 1);
    assert Payload(m)[..4] == PutWord(|m.name| + 1);
  }

  lemma FrameReading(m: Message, rest: seq<byte>, codec: Codec)
    requires Fits(m)
    ensures |Payload(m)| == 4 + |m.name| + 1 + |m.body|
    ensures Reading(Payload(m), PutWord(Adler32(Payload(m))), rest, codec) == Decoded(codec, m, true, rest)
  {
    PayloadParts(m);
    WordRoundTrip(Adler32(Payload(m)));
  }

  /** A frame followed by anything reads back as its message with a matching checksum, leaving the rest, or as
      the decoder's refusal of that message. */
  lemma FrameReadsBack(m: Message, rest: seq<byte>, codec: Codec)
    requires Fits(m)
    ensures Parse(Frame(m) + rest, codec) == Decoded(codec, m, true, rest)
  {
    FrameReading(m, rest, codec);
    ParseAssembled(Payload(m), PutWord(Adler32(Payload(m))), rest, codec);
  }

  function Stream(messages: seq<Message>): seq<byte>
    requires forall m :: m in messages ==> Fits(m)
  {
    if messages == [] then [] else Frame(messages[0]) + Stream(messages[1..])
  }

  /** All the messages a stream reads as, up to the first result that is not a frame. */
  function ParseAll(stream: seq<byte>, codec: Codec): (r: (seq<Message>, ReadResult))
    decreases |stream|
  {
    var first := Parse(stream, codec);
    if first.Read? then
      var (later, end) := ParseAll(first.rest, codec);
      ([first.message] + later, end)
    else ([], first)
  }

  /** A concatenation of frames is split into exactly its messages, in order, with nothing left over. */
  lemma {:induction false} StreamReadsBack(messages: seq<Message>, codec: Codec)
    requires forall m :: m in messages ==> Fits(m) && Understood(codec, m)
    ensures ParseAll(Stream(messages), codec) == (messages, EndOfStream)
  {
    if messages != [] {
      FrameReadsBack(messages[0], Stream(messages[1..]), codec);
      StreamReadsBack(messages[1..], codec);
      assert messages == [messages[0]] + messages[1..];
    }
  }

  /** So encoding is injective on whole conversations. */
  lemma StreamInjective(a: seq<Message>, b: seq<Message>)
    requires forall m :: m in a ==> Fits(m)
    requires forall m :: m in b ==> Fits(m)
    requires Stream(a) == Stream(b)
    ensures a == b
  {
    var any := Codec((name: seq<byte>) => true, (m: Message) => true);
    StreamReadsBack(a, any);
    StreamReadsBack(b, any);
  }

  lemma SizeRefused(payload: seq<byte>, sum: seq<byte>, rest: seq<byte>, codec: Codec)
    requires |payload| + 4 < MIN_FRAME || MAX_FRAME < |payload| + 4 < WORDS
    ensures !Parse(Assemble(payload, sum) + rest, codec).Read?
  {
    WordRoundTrip(|payload| + 4);
    assert (Assemble(payload, sum) + rest)[..4] == PutWord(|payload| + 4);
  }

  /** A name of no bytes leaves only its terminator, below the reader's least name length. */
  lemma EmptyNameReading(m: Message, rest: seq<byte>, codec: Codec)
    requires |m.name| == 0 < |m.body|
    ensures Reading(Payload(m), PutWord(Adler32(Payload(m))), rest, codec) == BadNameLength
  {
    WordRoundTrip(1);
    assert Payload(m)[..4] == PutWord(1);
  }

  /** The reader takes an encoded message exactly when it fits the reader's bounds and is understood, short of the
      4 GiB at which the length word wraps. */
  lemma AcceptedIffFits(m: Message, rest: seq<byte>, codec: Codec)
    requires |m.name| + 1 + |m.body| + 8 < WORDS
    ensures Parse(Frame(m) + rest, codec).Read? <==>
      && |m.name| >= 1 && |m.name| + 1 + |m.body| <= 65528
      && codec.known(m.name) && codec.decodes(m)
  {
    var payload := Payload(m);
    var sum := PutWord(Adler32(payload));
    if Fits(m) {
      FrameReadsBack(m, rest, codec);
    } else if 6 <= |payload| <= MAX_FRAME - 4 {
      EmptyNameReading(m, rest, codec);
      ParseAssembled(payload, sum, rest, codec);
    } else {
      SizeRefused(payload, sum, rest, codec);
    }
  }

  lemma DamagedFrame(payload: seq<byte>, sum: seq<byte>, p: nat, b: byte)
    requires |payload| <= MAX_FRAME - 4 && 4 <= p < 4 + |payload|
    ensures Assemble(payload, sum)[p := b] == Assemble(payload[p - 4 := b], sum)
    ensures Assemble(payload, sum)[p] == payload[p - 4]
  {
  }

  /** The checksum stored in the frame is of the undamaged payload. */
  lemma DamagedReading(m: Message, rest: seq<byte>, p: nat, b: byte, codec: Codec)
    requires Fits(m) && p < |Payload(m)| && b != Payload(m)[p]
    ensures
      var damaged := Payload(m)[p := b];
      var r := Reading(damaged, PutWord(Adler32(Payload(m))), rest, codec);
      && (r.Read? <==> NameFits(damaged) && Understood(codec, MessageIn(damaged)))
      && (r.Read? ==> !r.checksumOk)
  {
    WordRoundTrip(Adler32(Payload(m)));
    ByteChangeIsSeen(Payload(m), p, b);
  }

  /** One damaged byte of the name length, the name or the body never passes the checksum. The frame is handed on
      all the same if and only if what the damaged bytes spell still has a name that fits, is known and decodes. */
  lemma DamageIsSeenNotRefused(m: Message, rest: seq<byte>, p: nat, b: byte, codec: Codec)
    requires Fits(m) && 4 <= p < 4 + |Payload(m)| && b != Frame(m)[p]
    ensures
      var damaged := Payload(m)[p - 4 := b];
      var r := Parse(Frame(m)[p := b] + rest, codec);
      && (r.Read? <==> NameFits(damaged) && Understood(codec, MessageIn(damaged)))
      && (r.Read? ==> !r.checksumOk)
  {
    var payload, sum := Payload(m), PutWord(Adler32(Payload(m)));
    DamagedFrame(payload, sum, p, b);
    DamagedReading(m, rest, p - 4, b, codec);
    ParseAssembled(payload[p - 4 := b], sum, rest, codec);
  }

  /** A body byte turned from 1 to 2 under a name whose bodies all decode: another message is handed on. */
  lemma DamagedBodyIsHandedOn(rest: seq<byte>)
    ensures
      var m, codec := Message([65], [1]), Codec((name: seq<byte>) => name == [65], (m: Message) => true);
      && Frame(m)[10] == 1
      && Parse(Frame(m) + rest, codec) == Read(m, true, rest)
      && Parse(Frame(m)[10 := 2] + rest, codec) == Read(Message([65], [2]), false, rest)
  {
    var m, codec := Message([65], [1]), Codec((name: seq<byte>) => name == [65], (m: Message) => true);
    var payload, damaged := Payload(m), Payload(m)[6 := 2];
    FrameReadsBack(m, rest, codec);
    PayloadParts(m);
    DamagedFrame(payload, PutWord(Adler32(payload)), 10, 2);
    assert damaged[..4] == payload[..4];
    assert damaged[4..5] == [65] && damaged[6..] == [2];
    DamageIsSeenNotRefused(m, rest, 10, 2, codec);
    HandedOnIff(damaged, PutWord(Adler32(payload)), rest, codec);
  }
}
