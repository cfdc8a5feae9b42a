/**
  The packet layer of the remote GDB stub: `$<payload>#<checksum>`, answered by '+' or '-'.

  `Receive` says what `getpacket` does with a stream of incoming bytes.  A stream that ends leaves the
  stub waiting for the next byte, which is the outcome `Waiting`.
 */
module GdbPacket {

  type Byte = b: nat | b < 256

  // The code's constants.  The specification has the bytes themselves: '$' 36, '#' 35, '+' 43, '-' 45, ':' 58.
  const BUFMAX: nat := 400
  const DOLLAR: Byte := 36
  const HASH: Byte := 35
  const PLUS: Byte := 43
  const MINUS: Byte := 45
  const COLON: Byte := 58

  type Buffer = b: seq<Byte> | |b| == 400 witness seq(400, _ => 0)

  // ---------- Hexadecimal digits ----------

  /** `hex`: the value of a digit, or -1. */
  function Hex(ch: Byte): (v: int)
    ensures -1 <= v < 16
  {
    if 97 <= ch <= 102 then ch - 97 + 10
    else if 48 <= ch <= 57 then ch - 48
    else if 65 <= ch <= 70 then ch - 65 + 10
    else -1
  }

  /** `hexchars[n]`. */
  function HexChar(n: nat): Byte
    requires n < 16
  {
    if n < 10 then 48 + n else 97 + (n - 10)
  }

  /** A byte from two digit values, as `unsigned char` arithmetic makes it; -1 is what `hex` returned. */
  function FromDigits(hi: int, lo: int): Byte
    requires -1 <= hi < 16 && -1 <= lo < 16
  {
    (hi * 16 % 256 + lo) % 256
  }

  lemma DigitsRoundTrip(b: Byte)
    ensures Hex(HexChar(b / 16)) == b / 16 && Hex(HexChar(b % 16)) == b % 16
    ensures FromDigits(Hex(HexChar(b / 16)), Hex(HexChar(b % 16))) == b
  {
    DigitRoundTrip(b / 16);
    DigitRoundTrip(b % 16);
    assert FromDigits(b / 16, b % 16) == b;
  }

  lemma DigitRoundTrip(n: nat)
    requires n < 16
    ensures Hex(HexChar(n)) == n
  {
  }

  /** The sixteen digits, in lower and in upper case, and nothing else. */
  lemma HexDigits(n: nat)
    requires n < 16
    ensures HexChar(n) == [48, 49, 50, 51, 52, 53, 54, 55, 56, 57, 97, 98, 99, 100, 101, 102][n]
    ensures Hex(HexChar(n)) == n && (n >= 10 ==> Hex(HexChar(n) - 32) == n)
  {
  }

  lemma NoOtherDigits(c: Byte)
    ensures Hex(c) == -1 <==> !(48 <= c <= 57 || 65 <= c <= 70 || 97 <= c <= 102)
    ensures 97 <= c <= 102 ==> Hex(c - 32) == Hex(c)
  {
  }

  /** Two characters that are no digits count as 0xEF: -1 in each half, in eight bits. */
  lemma BadDigits()
    ensures FromDigits(-1, -1) == 0xEF && FromDigits(-1, 0) == 0xF0 && FromDigits(0, -1) == 0xFF
  {
  }

  // ---------- The frame ----------

  function Sum(p: seq<Byte>): Byte {
    if p == [] then 0 else (Sum(p[..|p| - 1]) + p[|p| - 1]) % 256
  }

  /** The sum of the bytes, modulo 256. */
  lemma {:induction false} SumAdds(p: seq<Byte>, q: seq<Byte>)
    ensures Sum(p + q) == (Sum(p) + Sum(q)) % 256
  {
    if q == [] {
      assert p + q == p;
    } else {
      var n := |q| - 1;
      SumAdds(p, q[..n]);
      var t := p + q;
      assert t[..|t| - 1] == p + q[..n] && t[|t| - 1] == q[n];
      assert Sum(t) == (Sum(p + q[..n]) + q[n]) % 256;
      AddMod(Sum(p), Sum(q[..n]), q[n]);
    }
  }

  lemma AddMod(a: nat, b: nat, c: nat)
    ensures ((a + b) % 256 + c) % 256 == (a + (b + c) % 256) % 256
  {
  }

  lemma SumOfOne(b: Byte)
    ensures Sum([b]) == b
  {
  }

  /** One transmission of a packet. */
  function Frame(p: seq<Byte>): seq<Byte> {
    [36] + p + [35, HexChar(Sum(p) / 16), HexChar(Sum(p) % 16)]
  }

  // ---------- getpacket ----------

  datatype Outcome =
    | Waiting(replies: seq<Byte>)
    | Packet(rest: seq<Byte>, buffer: Buffer, replies: seq<Byte>, start: nat)
  {
    function Answering(reply: seq<Byte>): Outcome {
      this.(replies := reply + replies)
    }
  }

  /** Waits for the start character and ignores all others. */
  function Receive(input: seq<Byte>, buffer: Buffer): Outcome
    decreases |input|, 1
  {
    if input == [] then Waiting([])
    else if input[0] != 36 then Receive(input[1..], buffer)
    else Payload(input[1..], buffer, 0, 0)
  }

  /** Reads up to a '#' or to the end of the buffer; a '$' starts again. */
  function Payload(input: seq<Byte>, buffer: Buffer, count: nat, sum: Byte): Outcome
    requires count < 400
    decreases |input|, 2
  {
    if count == 399 then Receive(input, buffer[count := 0])
    else if input == [] then Waiting([])
    else if input[0] == 36 then Payload(input[1..], buffer, 0, 0)
    else if input[0] == 35 then Check(input[1..], buffer[count := 0], sum)
    else Payload(input[1..], buffer[count := input[0]], count + 1, (sum + input[0]) % 256)
  }

  /** Compares the checksums and answers; a sequence id in front of a ':' is echoed and cut off. */
  function Check(input: seq<Byte>, buffer: Buffer, sum: Byte): Outcome
    decreases |input|, 3
  {
    if |input| < 2 then Waiting([])
    else if sum != FromDigits(Hex(input[0]), Hex(input[1])) then Receive(input[2..], buffer).Answering([45])
    else if buffer[2] == 58 then Packet(input[2..], buffer, [43, buffer[0], buffer[1]], 3)
    else Packet(input[2..], buffer, [43], 0)
  }

  /** The C string that starts at an index of the buffer. */
  function CString(b: seq<Byte>, start: nat): seq<Byte>
    decreases |b| - start
  {
    if start >= |b| || b[start] == 0 then [] else [b[start]] + CString(b, start + 1)
  }

  // ---------- What it makes of a stream ----------

  lemma {:induction false} NoiseIsSkipped(noise: seq<Byte>, rest: seq<Byte>, buffer: Buffer)
    requires 36 !in noise
    ensures Receive(noise + rest, buffer) == Receive(rest, buffer)
  {
    if noise == [] {
      assert noise + rest == rest;
    } else {
      assert (noise + rest)[1..] == noise[1..] + rest;
      NoiseIsSkipped(noise[1..], rest, buffer);
    }
  }

  predicate Plain(p: seq<Byte>) {
    36 !in p && 35 !in p
  }

  /** The buffer once p has been stored in front. */
  function Stored(buffer: Buffer, p: seq<Byte>): (b: Buffer)
    requires |p| <= 400
  {
    p + buffer[|p|..]
  }

  lemma {:induction false} PayloadIsStored(p: seq<Byte>, n: nat, rest: seq<Byte>, buffer: Buffer)
    requires Plain(p) && n <= |p| < 400
    ensures Payload(p[n..] + rest, Stored(buffer, p[..n]), n, Sum(p[..n]))
         == Payload(rest, Stored(buffer, p), |p|, Sum(p))
    decreases |p| - n
  {
    if n == |p| {
      assert p[..n] == p && p[n..] + rest == rest;
    } else {
      var input := p[n..] + rest;
      assert input[0] == p[n] && p[n] in p && input[1..] == p[n + 1..] + rest;
      assert p[..n + 1][..n] == p[..n];
      assert Stored(buffer, p[..n])[n := p[n]] == Stored(buffer, p[..n + 1]);
      PayloadIsStored(p, n + 1, rest, buffer);
    }
  }

  /** A frame, up to its '#': the checksum test is reached with the payload stored and terminated. */
  lemma FrameIsRead(p: seq<Byte>, rest: seq<Byte>, buffer: Buffer)
    requires Plain(p) && |p| <= 398
    ensures Receive([36] + p + [35] + rest, buffer) == Check(rest, Stored(buffer, p + [0]), Sum(p))
  {
    var input := [36] + p + [35] + rest;
    assert input[1..] == p[0..] + ([35] + rest);
    assert Stored(buffer, p[..0]) == buffer;
    PayloadIsStored(p, 0, [35] + rest, buffer);
    assert ([35] + rest)[1..] == rest;
    assert Stored(buffer, p)[|p| := 0] == Stored(buffer, p + [0]);
  }

  /** After the payload is stored, its third byte is what decides whether a sequence id is seen. */
  predicate LooksSequenced(p: seq<Byte>, buffer: Buffer) {
    (|p| >= 3 && p[2] == 58) || (|p| < 2 && buffer[2] == 58)
  }

  /**
    `getpacket` undoes `putpacket` exactly when no ':' stands in the third place, where a payload of
    fewer than two bytes leaves the byte of an earlier packet.
   */
  lemma ReceiveUndoesFrame(p: seq<Byte>, rest: seq<Byte>, buffer: Buffer)
    requires Plain(p) && 0 !in p && |p| <= 398
    ensures var b := Stored(buffer, p + [0]);
      && b[..|p| + 1] == p + [0] && CString(b, 0) == p
      && (Receive(Frame(p) + rest, buffer) == Packet(rest, b, [43], 0) <==> !LooksSequenced(p, buffer))
      && (LooksSequenced(p, buffer) ==> Receive(Frame(p) + rest, buffer) == Packet(rest, b, [43, b[0], b[1]], 3))
  {
    var b := Stored(buffer, p + [0]);
    var tail := [HexChar(Sum(p) / 16), HexChar(Sum(p) % 16)] + rest;
    assert Frame(p) + rest == [36] + p + [35] + tail;
    FrameIsRead(p, tail, buffer);
    DigitsRoundTrip(Sum(p));
    assert tail[2..] == rest;
    assert b[2] == 58 <==> LooksSequenced(p, buffer);
    StoredString(p, buffer, 0);
  }

  /** "ab:c" arrives as "c", and the two bytes before the ':' are sent back. */
  lemma ColonIsTakenForSequence(rest: seq<Byte>, buffer: Buffer)
    ensures var r := Receive(Frame([97, 98, 58, 99]) + rest, buffer);
      r.Packet? && CString(r.buffer, r.start) == [99] && r.replies == [43, 97, 98] && r.buffer[2] == 58
  {
    var p: seq<Byte> := [97, 98, 58, 99];
    ReceiveUndoesFrame(p, rest, buffer);
    StoredString(p, buffer, 3);
  }

  /** After it, the one-byte packet "g" does not arrive: it is taken for a sequence id as well. */
  lemma ColonStaysBehind(rest: seq<Byte>, buffer: Buffer)
    ensures var r := Receive(Frame([97, 98, 58, 99]) + (Frame([103]) + rest), buffer);
      r.Packet? && var r' := Receive(r.rest, r.buffer);
      r'.Packet? && r'.start == 3 && r'.replies == [43, 103, 0]
  {
    var r := Receive(Frame([97, 98, 58, 99]) + (Frame([103]) + rest), buffer);
    ReceiveUndoesFrame([97, 98, 58, 99], Frame([103]) + rest, buffer);
    ColonIsTakenForSequence(Frame([103]) + rest, buffer);
    ReceiveUndoesFrame([103], rest, r.buffer);
  }

  lemma {:induction false} StoredString(p: seq<Byte>, buffer: Buffer, i: nat)
    requires 0 !in p && |p| <= 398 && i <= |p|
    ensures CString(Stored(buffer, p + [0]), i) == p[i..]
    decreases |p| - i
  {
    if i < |p| {
      assert p[i] in p;
      StoredString(p, buffer, i + 1);
      assert p[i..] == [p[i]] + p[i + 1..];
    }
  }

  /** A frame whose checksum does not match draws one '-' and reception goes on after it. */
  lemma BadFrameIsRefused(p: seq<Byte>, x: Byte, y: Byte, rest: seq<Byte>, buffer: Buffer)
    requires Plain(p) && |p| <= 398 && Sum(p) != FromDigits(Hex(x), Hex(y))
    ensures Receive([36] + p + [35, x, y] + rest, buffer)
         == Receive(rest, Stored(buffer, p + [0])).Answering([45])
  {
    assert [36] + p + [35, x, y] + rest == [36] + p + [35] + ([x, y] + rest);
    FrameIsRead(p, [x, y] + rest, buffer);
    assert ([x, y] + rest)[2..] == rest;
  }

  /** The packet "OK" on the line: "$OK#9a" is answered "+", "$OK#00" is answered "-". */
  lemma OkOnTheLine(rest: seq<Byte>, buffer: Buffer)
    ensures Frame([79, 75]) == [36, 79, 75, 35, 57, 97]
    ensures var r := Receive([36, 79, 75, 35, 57, 97] + rest, buffer);
      r.Packet? && r.replies == [43] && r.rest == rest && CString(r.buffer, r.start) == [79, 75]
    ensures var b := Stored(buffer, [79, 75, 0]);
      Receive([36, 79, 75, 35, 48, 48] + rest, buffer) == Receive(rest, b).Answering([45])
  {
    SumOfOne(79);
    SumOfOne(75);
    SumAdds([79], [75]);
    assert [79] + [75] == [79, 75];
    assert Frame([79, 75]) == [36] + [79, 75] + [35, HexChar(9), HexChar(10)];
    ReceiveUndoesFrame([79, 75], rest, buffer);
    assert [36] + [79, 75] + [35, 48, 48] + rest == [36, 79, 75, 35, 48, 48] + rest;
    BadFrameIsRefused([79, 75], 48, 48, rest, buffer);
    assert [79, 75] + [0] == [79, 75, 0];
  }

  /** A '$' in the middle of a frame starts a new one; nothing is answered for the old one. */
  lemma DollarRestarts(q: seq<Byte>, rest: seq<Byte>, buffer: Buffer)
    requires Plain(q) && |q| <= 398
    ensures Receive([36] + q + [36] + rest, buffer) == Receive([36] + rest, Stored(buffer, q))
  {
    var input := [36] + q + [36] + rest;
    assert input[1..] == q[0..] + ([36] + rest);
    assert Stored(buffer, q[..0]) == buffer;
    PayloadIsStored(q, 0, [36] + rest, buffer);
    assert ([36] + rest)[1..] == rest;
  }

  /** A payload that fills the buffer is dropped without an answer. */
  lemma OverlongIsDropped(q: seq<Byte>, rest: seq<Byte>, buffer: Buffer)
    requires Plain(q) && |q| == 399
    ensures Receive([36] + q + rest, buffer) == Receive(rest, Stored(buffer, q + [0]))
  {
    var input := [36] + q + rest;
    assert input[1..] == q[0..] + rest;
    assert Stored(buffer, q[..0]) == buffer;
    PayloadIsStored(q, 0, rest, buffer);
    assert Stored(buffer, q)[|q| := 0] == Stored(buffer, q + [0]);
  }

  // ---------- A whole exchange ----------

  /** Noise, then a frame with a wrong checksum. */
  datatype Attempt = Attempt(noise: seq<Byte>, payload: seq<Byte>, x: Byte, y: Byte) {
    predicate Failing() {
      && 36 !in noise && Plain(payload) && |payload| <= 398
      && Sum(payload) != FromDigits(Hex(x), Hex(y))
    }

    function Bytes(): seq<Byte> {
      noise + ([36] + payload + [35, x, y])
    }
  }

  function Stream(tries: seq<Attempt>): seq<Byte> {
    if tries == [] then [] else tries[0].Bytes() + Stream(tries[1..])
  }

  function AfterTries(tries: seq<Attempt>, buffer: Buffer): Buffer
    requires forall i :: 0 <= i < |tries| ==> tries[i].Failing()
  {
    if tries == [] then buffer
    else
      assert tries[0].Failing();
      AfterTries(tries[1..], Stored(buffer, tries[0].payload + [0]))
  }

  function Minuses(n: nat): (s: seq<Byte>)
    ensures |s| == n && forall i :: 0 <= i < n ==> s[i] == 45
  {
    if n == 0 then [] else [45] + Minuses(n - 1)
  }

  lemma {:induction false} TriesDrawMinuses(tries: seq<Attempt>, rest: seq<Byte>, buffer: Buffer)
    requires forall i :: 0 <= i < |tries| ==> tries[i].Failing()
    ensures Receive(Stream(tries) + rest, buffer)
         == Receive(rest, AfterTries(tries, buffer)).Answering(Minuses(|tries|))
  {
    if tries == [] {
      assert Stream(tries) + rest == rest;
      assert [] + Receive(rest, buffer).replies == Receive(rest, buffer).replies;
    } else {
      var t := tries[0];
      var later := Stream(tries[1..]) + rest;
      assert t.Failing();
      assert Stream(tries) + rest == t.noise + ([36] + t.payload + [35, t.x, t.y] + later);
      NoiseIsSkipped(t.noise, [36] + t.payload + [35, t.x, t.y] + later, buffer);
      BadFrameIsRefused(t.payload, t.x, t.y, later, buffer);
      TriesDrawMinuses(tries[1..], rest, Stored(buffer, t.payload + [0]));
      var r := Receive(rest, AfterTries(tries, buffer));
      assert [45] + (Minuses(|tries| - 1) + r.replies) == Minuses(|tries|) + r.replies;
    }
  }

  /**
    Any number of damaged frames with noise around them, then the good one: one '-' for each damaged
    frame, one '+', and the payload.
   */
  lemma ExchangeDelivers(tries: seq<Attempt>, noise: seq<Byte>, p: seq<Byte>, rest: seq<Byte>, buffer: Buffer)
    requires forall i :: 0 <= i < |tries| ==> tries[i].Failing()
    requires 36 !in noise && Plain(p) && 0 !in p && |p| <= 398
    requires !LooksSequenced(p, AfterTries(tries, buffer))
    ensures var r := Receive(Stream(tries) + noise + Frame(p) + rest, buffer);
      && r.Packet? && r.rest == rest && r.start == 0 && CString(r.buffer, r.start) == p
      && r.replies == Minuses(|tries|) + [43]
  {
    var b := AfterTries(tries, buffer);
    assert Stream(tries) + noise + Frame(p) + rest == Stream(tries) + (noise + (Frame(p) + rest));
    TriesDrawMinuses(tries, noise + (Frame(p) + rest), buffer);
    NoiseIsSkipped(noise, Frame(p) + rest, b);
    ReceiveUndoesFrame(p, rest, b);
  }

  lemma AnsweredTwice(r: Outcome, later: seq<Byte>, earlier: seq<Byte>)
    ensures r.Answering(later).Answering(earlier) == r.Answering(earlier + later)
  {
    assert earlier + (later + r.replies) == (earlier + later) + r.replies;
  }

  // ---------- The stub itself ----------

  class Stub {
    var input: seq<Byte>            // what the line has delivered and nobody has read
    var output: seq<Byte>           // what has been sent
    const inBuffer: array<Byte>     // remcomInBuffer; it keeps its contents between packets

    constructor (input: seq<Byte>)
      ensures this.input == input && output == [] && inBuffer.Length == BUFMAX && fresh(inBuffer)
      ensures forall i :: 0 <= i < BUFMAX ==> inBuffer[i] == 0
    {
      this.input, output := input, [];
      inBuffer := new Byte[BUFMAX](_ => 0);
    }

    /** `getDebugChar` blocks while there is no input; `ok` says that it returned. */
    method GetDebugChar() returns (ok: bool, ch: Byte)
      modifies this`input
      ensures ok <==> old(input) != []
      ensures ok ==> ch == old(input)[0] && input == old(input)[1..]
      ensures !ok ==> input == old(input)
    {
      ok, ch := input != [], 0;
      if ok {
        ch := input[0];
        input := input[1..];
      }
    }

    method PutDebugChar(ch: Byte)
      modifies this`output
      ensures output == old(output) + [ch]
    {
      output := output + [ch];
    }

    /** What the outcome says has happened: the call returned, or waits for more input. */
    ghost predicate Meets(r: Outcome, sent: seq<Byte>, ok: bool, start: nat)
      reads this, inBuffer
    {
      && inBuffer.Length == BUFMAX && output == sent + r.replies && (ok <==> r.Packet?)
      && (r.Packet? ==> input == r.rest && inBuffer[..] == r.buffer && start == r.start)
    }

    /** "wait around for the start character". */
    method WaitForStart() returns (ok: bool)
      requires inBuffer.Length == BUFMAX
      modifies this`input
      ensures Receive(old(input), inBuffer[..]) == if ok then Payload(input, inBuffer[..], 0, 0) else Waiting([])
      ensures ok ==> |input| < |old(input)|
    {
      var ch;
      ok, ch := GetDebugChar();
      while ok && ch != DOLLAR
        invariant Receive(old(input), inBuffer[..]) ==
          if !ok then Waiting([])
          else if ch == DOLLAR then Payload(input, inBuffer[..], 0, 0)
          else Receive(input, inBuffer[..])
        invariant ok ==> |input| < |old(input)|
        decreases |input| + if ok then 1 else 0
      {
        ok, ch := GetDebugChar();
      }
    }

    /** "read until a # or end of buffer is found". */
    method ReadPayload() returns (ok: bool, hash: bool, checksum: Byte)
      requires inBuffer.Length == BUFMAX
      modifies this`input, inBuffer
      ensures Payload(old(input), old(inBuffer[..]), 0, 0) ==
        if !ok then Waiting([])
        else if hash then Check(input, inBuffer[..], checksum)
        else Receive(input, inBuffer[..])
      ensures |input| <= |old(input)|
    {
      var count: nat := 0;
      checksum, hash := 0, false;
      while count < BUFMAX - 1
        invariant count < BUFMAX && |input| <= |old(input)|
        invariant Payload(old(input), old(inBuffer[..]), 0, 0) == Payload(input, inBuffer[..], count, checksum)
        decreases |input|
      {
        var ch;
        ok, ch := GetDebugChar();
        if !ok { return; }
        if ch == DOLLAR {
          checksum, count := 0, 0;
          continue;
        }
        if ch == HASH {
          hash := true;
          break;
        }
        checksum := (checksum + ch) % 256;
        ghost var before := inBuffer[..];
        inBuffer[count] := ch;
        assert inBuffer[..] == before[count := ch];
        count := count + 1;
      }
      ghost var before := inBuffer[..];
      inBuffer[count] := 0;
      assert inBuffer[..] == before[count := 0];
      ok := true;
    }

    /** Reads the two checksum digits and answers. */
    method Answer(checksum: Byte) returns (ok: bool, done: bool, start: nat)
      requires inBuffer.Length == BUFMAX
      modifies this`input, this`output
      ensures ok && done ==> Meets(Check(old(input), inBuffer[..], checksum), old(output), true, start)
      ensures ok && !done ==> output == old(output) + [45] && |input| < |old(input)|
      ensures ok && !done ==>
        Check(old(input), inBuffer[..], checksum) == Receive(input, inBuffer[..]).Answering([45])
      ensures !ok ==> Check(old(input), inBuffer[..], checksum) == Waiting([]) && output == old(output)
    {
      done, start := false, 0;
      var hi, lo;
      ok, hi := GetDebugChar();
      if !ok { return; }
      ok, lo := GetDebugChar();
      if !ok { return; }
      var xmitcsum := FromDigits(Hex(hi), Hex(lo));
      if checksum != xmitcsum {
        PutDebugChar(MINUS);
      } else {
        done := true;
        PutDebugChar(PLUS);
        if inBuffer[2] == COLON {
          PutDebugChar(inBuffer[0]);
          PutDebugChar(inBuffer[1]);
          start := 3;
        }
      }
    }

    /** One pass of the outer loop: up to a packet, the end of the input, or another pass. */
    method TryOnce() returns (over: bool, ok: bool, start: nat, ghost sent: seq<Byte>)
      requires inBuffer.Length == BUFMAX
      modifies this, inBuffer
      ensures over ==> Meets(Receive(old(input), old(inBuffer[..])), old(output), ok, start)
      ensures !over ==> |input| < |old(input)| && output == old(output) + sent
      ensures !over ==> Receive(old(input), old(inBuffer[..])) == Receive(input, inBuffer[..]).Answering(sent)
    {
      over, sent, start := true, [], 0;
      ok := WaitForStart();
      if !ok { return; }
      var hash, checksum;
      ok, hash, checksum := ReadPayload();
      if !ok { return; }
      if hash {
        ok, over, start := Answer(checksum);
        over, sent := over || !ok, [45];
      } else {
        over := false;
        assert [] + Receive(input, inBuffer[..]).replies == Receive(input, inBuffer[..]).replies;
      }
    }

    /** `getpacket`: what it returns, sends and leaves in the buffer is what `Receive` says. */
    method GetPacket() returns (ok: bool, start: nat)
      requires inBuffer.Length == BUFMAX
      modifies this, inBuffer
      ensures Meets(Receive(old(input), old(inBuffer[..])), old(output), ok, start)
    {
      ghost var sent := [];
      start := 0;
      assert [] + Receive(input, inBuffer[..]).replies == Receive(input, inBuffer[..]).replies;
      while true
        invariant Receive(old(input), old(inBuffer[..])) == Receive(input, inBuffer[..]).Answering(sent)
        invariant output == old(output) + sent
        decreases |input|
      {
        var over;
        ghost var more;
        over, ok, start, more := TryOnce();
        if over { return; }
        AnsweredTwice(Receive(input, inBuffer[..]), more, sent);
        sent := sent + more;
      }
    }

    /**
      `putpacket`: sends the frame again until one byte read after it is a '+'.  Waits for ever if none
      comes.
     */
    method PutPacket(p: seq<Byte>) returns (ok: bool)
      modifies this`input, this`output
      ensures ok <==> 43 in old(input)
      ensures ok ==> exists n ::
        && 0 <= n < |old(input)| && old(input)[n] == 43 && 43 !in old(input)[..n]
        && input == old(input)[n + 1..] && output == old(output) + Repeated(Frame(p), n + 1)
      ensures !ok ==> input == [] && output == old(output) + Repeated(Frame(p), |old(input)| + 1)
    {
      ghost var n := 0;
      while true
        invariant n <= |old(input)| && input == old(input)[n..] && 43 !in old(input)[..n]
        invariant output == old(output) + Repeated(Frame(p), n)
        decreases |input|
      {
        Send(p);
        assert output == old(output) + Repeated(Frame(p), n + 1);
        var ch;
        ok, ch := GetDebugChar();
        if !ok { return; }
        if ch == PLUS { return; }
        assert old(input)[..n + 1] == old(input)[..n] + [ch];
        n := n + 1;
      }
    }

    /** One transmission. */
    method Send(p: seq<Byte>)
      modifies this`output
      ensures output == old(output) + Frame(p)
    {
      PutDebugChar(DOLLAR);
      var checksum: nat, count: nat := 0, 0;
      while count < |p|
        invariant count <= |p| && checksum == Sum(p[..count])
        invariant output == old(output) + [36] + p[..count]
      {
        PutDebugChar(p[count]);
        assert p[..count + 1][..count] == p[..count];
        checksum := (checksum + p[count]) % 256;
        count := count + 1;
      }
      assert p[..count] == p;
      PutDebugChar(HASH);
      PutDebugChar(HexChar(checksum / 16));
      PutDebugChar(HexChar(checksum % 16));
    }
  }

  function Repeated(f: seq<Byte>, n: nat): seq<Byte> {
    if n == 0 then [] else Repeated(f, n - 1) + f
  }

  lemma {:induction false} RepeatedAdds(f: seq<Byte>, m: nat, n: nat)
    ensures Repeated(f, 1) == f && Repeated(f, m + n) == Repeated(f, m) + Repeated(f, n)
  {
    assert Repeated(f, 1) == [] + f;
    if n == 0 {
      assert Repeated(f, m) + [] == Repeated(f, m);
    } else {
      RepeatedAdds(f, m, n - 1);
      assert (Repeated(f, m) + Repeated(f, n - 1)) + f == Repeated(f, m) + (Repeated(f, n - 1) + f);
    }
  }

  // ---------- Memory as hexadecimal text ----------

  function ToHex(mem: seq<Byte>): seq<Byte> {
    if mem == [] then []
    else ToHex(mem[..|mem| - 1]) + [HexChar(mem[|mem| - 1] / 16), HexChar(mem[|mem| - 1] % 16)]
  }

  /** The first n bytes that pairs of digits denote, whatever the digits are. */
  function FromHex(text: seq<Byte>, n: nat): seq<Byte>
    requires 2 * n <= |text|
  {
    if n == 0 then []
    else FromHex(text, n - 1) + [FromDigits(Hex(text[2 * n - 2]), Hex(text[2 * n - 1]))]
  }

  lemma {:induction false} HexLength(mem: seq<Byte>)
    ensures |ToHex(mem)| == 2 * |mem|
  {
    if mem != [] { HexLength(mem[..|mem| - 1]); }
  }

  lemma {:induction false} FromHexPrefix(a: seq<Byte>, b: seq<Byte>, n: nat)
    requires 2 * n <= |a|
    ensures FromHex(a + b, n) == FromHex(a, n)
  {
    if n > 0 { FromHexPrefix(a, b, n - 1); }
  }

  /** Byte i is the two characters from 2 * i on, its high half first, in "0123456789abcdef". */
  lemma {:induction false} ToHexAt(mem: seq<Byte>, i: nat)
    requires i < |mem|
    ensures var digits: seq<Byte> := [48, 49, 50, 51, 52, 53, 54, 55, 56, 57, 97, 98, 99, 100, 101, 102];
      && |ToHex(mem)| == 2 * |mem|
      && ToHex(mem)[2 * i] == digits[mem[i] / 16] && ToHex(mem)[2 * i + 1] == digits[mem[i] % 16]
  {
    HexLength(mem);
    var front := mem[..|mem| - 1];
    HexLength(front);
    if i < |front| { ToHexAt(front, i); }
  }

  /** Byte i is sixteen times the first digit of pair i and the second one. */
  lemma {:induction false} FromHexAt(text: seq<Byte>, n: nat, i: nat)
    requires i < n && 2 * n <= |text| && Hex(text[2 * i]) >= 0 && Hex(text[2 * i + 1]) >= 0
    ensures |FromHex(text, n)| == n && FromHex(text, n)[i] == 16 * Hex(text[2 * i]) + Hex(text[2 * i + 1])
  {
    FromHexLength(text, n);
    FromHexLength(text, n - 1);
    if i < n - 1 { FromHexAt(text, n - 1, i); }
  }

  lemma {:induction false} FromHexLength(text: seq<Byte>, n: nat)
    requires 2 * n <= |text|
    ensures |FromHex(text, n)| == n
  {
    if n > 0 { FromHexLength(text, n - 1); }
  }

  /** `hex2mem` undoes `mem2hex` on every sequence of bytes. */
  lemma {:induction false} HexRoundTrip(mem: seq<Byte>)
    ensures |ToHex(mem)| == 2 * |mem| && FromHex(ToHex(mem), |mem|) == mem
  {
    HexLength(mem);
    if mem != [] {
      var front, b := mem[..|mem| - 1], mem[|mem| - 1];
      HexLength(front);
      HexRoundTrip(front);
      FromHexPrefix(ToHex(front), [HexChar(b / 16), HexChar(b % 16)], |front|);
      DigitsRoundTrip(b);
    }
  }

  /** `mem2hex`: the digits, then a NUL, whose index is returned. */
  method Mem2Hex(mem: seq<Byte>, buf: array<Byte>) returns (end: nat)
    requires buf.Length > 2 * |mem|
    modifies buf
    ensures end == 2 * |mem| && buf[..end] == ToHex(mem) && buf[end] == 0
    ensures buf[end + 1..] == old(buf[end + 1..])
  {
    end := 0;
    var i := 0;
    while i < |mem|
      invariant 0 <= i <= |mem| && end == 2 * i && buf[..end] == ToHex(mem[..i])
      invariant buf[2 * |mem|..] == old(buf[2 * |mem|..])
    {
      var ch := mem[i];
      buf[end] := HexChar(ch / 16);
      buf[end + 1] := HexChar(ch % 16);
      assert mem[..i + 1][..i] == mem[..i];
      assert buf[..end + 2] == buf[..end] + [HexChar(ch / 16), HexChar(ch % 16)];
      end := end + 2;
      i := i + 1;
    }
    assert mem[..i] == mem;
    ghost var tail := buf[2 * |mem|..];
    assert old(buf[2 * |mem|..])[1..] == old(buf[2 * |mem| + 1..]) && tail[1..] == buf[end + 1..];
    buf[end] := 0;
  }

  /** `hex2mem`: count bytes from twice as many digits; the rest of the memory is left alone. */
  method Hex2Mem(text: seq<Byte>, mem: array<Byte>, count: nat)
    requires 2 * count <= |text| && count <= mem.Length
    modifies mem
    ensures mem[..count] == FromHex(text, count)
    ensures mem[count..] == old(mem[count..])
  {
    var i := 0;
    while i < count
      invariant 0 <= i <= count && mem[..i] == FromHex(text, i)
      invariant mem[count..] == old(mem[count..])
    {
      mem[i] := FromDigits(Hex(text[2 * i]), Hex(text[2 * i + 1]));
      assert mem[..i + 1] == mem[..i] + [mem[i]];
      i := i + 1;
    }
  }
}
