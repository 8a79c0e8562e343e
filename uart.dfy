/** Asynchronous-serial (8-N-1) transmit framer.
    A byte goes out as one start bit 0, eight data bits least significant
    first, and one stop bit 1; every bit is held for `samplesPerSymbol`
    identical line samples. The transmitter keeps a FIFO of samples that
    `PutByte` appends to and `GetSamples` drains, padding with the idle
    level 1 once the FIFO is empty. */
module Uart {

  /** An unsigned 8-bit value (Rust `u8`): the bytes sent and the samples queued. */
  type Byte = x: int | 0 <= x < 256

  /** The line levels. */
  const Start: Byte := 0
  const Stop: Byte := 1
  const Idle: Byte := 1

  /** Every sample is a line level, 0 or 1. */
  ghost predicate IsBinary(s: seq<Byte>) {
    forall i :: 0 <= i < |s| ==> s[i] <= 1
  }

  /** `n` copies of `x`: one bit held for `n` samples. */
  function Repeat(x: Byte, n: nat): (r: seq<Byte>)
    ensures |r| == n
    ensures forall i :: 0 <= i < n ==> r[i] == x
  {
    seq(n, _ => x)
  }

  // ---------------------------------------------------------------------
  // Framing arithmetic

  function Pow2(k: nat): (r: nat)
    ensures r >= 1
  {
    if k == 0 then 1 else 2 * Pow2(k - 1)
  }

  /** Euclidean division is determined by a quotient and remainder. */
  lemma DivUnique(a: nat, d: nat, q: nat, r: nat)
    requires d > 0 && a == q * d + r && r < d
    ensures a / d == q
  {
    var q0 := a / d;
    if q0 < q {
      MulLe(q0 + 1, q, d);
    } else if q < q0 {
      MulLe(q + 1, q0, d);
    }
  }

  /** Halving a quotient by `p` is dividing by `2 * p`. */
  lemma DivDouble(a: nat, p: nat)
    requires p > 0
    ensures a / p / 2 == a / (2 * p)
  {
    var q, r := a / p, a % p;
    var q2, r2 := q / 2, q % 2;
    assert a == q * p + r;
    assert q * p == q2 * (2 * p) + r2 * p by {
      assert q == 2 * q2 + r2;
    }
    assert r2 * p + r < 2 * p by {
      if r2 == 1 { assert r2 * p == p; } else { assert r2 * p == 0; }
    }
    DivUnique(a, 2 * p, q2, r2 * p + r);
  }

  /** `b` after `k` in-place shifts `b >>= 1`: `b >> k`, that is `b / 2^k`. */
  function Shifted(b: Byte, k: nat): (r: Byte)
    ensures r == b / Pow2(k)
  {
    if k == 0 then b
    else
      DivDouble(b, Pow2(k - 1));
      Shifted(b, k - 1) / 2
  }

  /** The `k`-th data bit, `(b >> k) & 1`. */
  function Bit(b: Byte, k: nat): (r: Byte)
    ensures r <= 1
    ensures r == b / Pow2(k) % 2
  {
    Shifted(b, k) % 2
  }

  /** The samples of the first `n` data bits, least significant first. */
  function DataBits(b: Byte, n: nat, sps: nat): (r: seq<Byte>)
    ensures |r| == n * sps
  {
    if n == 0 then [] else DataBits(b, n - 1, sps) + Repeat(Bit(b, n - 1), sps)
  }

  /** The samples `PutByte` appends: start bit, eight data bits, stop bit. */
  function Frame(b: Byte, sps: nat): (r: seq<Byte>)
    ensures |r| == 10 * sps
  {
    Repeat(Start, sps) + DataBits(b, 8, sps) + Repeat(Stop, sps)
  }

  /** The frames of a whole message, one after the other. */
  function Frames(msg: seq<Byte>, sps: nat): (r: seq<Byte>)
    ensures |r| == 10 * sps * |msg|
  {
    if msg == [] then [] else Frames(msg[..|msg| - 1], sps) + Frame(msg[|msg| - 1], sps)
  }

  /** Queuing one more byte appends its frame. */
  lemma FramesPrefix(msg: seq<Byte>, k: nat, sps: nat)
    requires k < |msg|
    ensures Frames(msg[..k + 1], sps) == Frames(msg[..k], sps) + Frame(msg[k], sps)
  {
    assert msg[..k + 1][..k] == msg[..k];
  }

  lemma MulLe(a: nat, b: nat, c: nat)
    requires a <= b
    ensures a * c <= b * c
  {
    assert b * c == a * c + (b - a) * c;
  }

  lemma {:induction false} DataBitsAt(b: Byte, n: nat, sps: nat, k: nat, j: nat)
    requires k < n && j < sps
    ensures k * sps + j < n * sps
    ensures DataBits(b, n, sps)[k * sps + j] == Bit(b, k)
  {
    var i := k * sps + j;
    assert i < (k + 1) * sps;
    MulLe(k + 1, n, sps);
    var prefix := DataBits(b, n - 1, sps);
    assert DataBits(b, n, sps) == prefix + Repeat(Bit(b, n - 1), sps);
    if k < n - 1 {
      DataBitsAt(b, n - 1, sps, k, j);
      assert DataBits(b, n, sps)[i] == prefix[i];
    } else {
      assert i - |prefix| == j;
    }
  }

  /** The first `sps` samples of a frame are the start bit 0. */
  lemma FrameStartBit(b: Byte, sps: nat, i: nat)
    requires i < sps
    ensures Frame(b, sps)[i] == 0
  {
  }

  /** The last `sps` samples of a frame are the stop bit 1. */
  lemma FrameStopBit(b: Byte, sps: nat, i: nat)
    requires 9 * sps <= i < 10 * sps
    ensures Frame(b, sps)[i] == 1
  {
    var f := Frame(b, sps);
    assert f == (Repeat(Start, sps) + DataBits(b, 8, sps)) + Repeat(Stop, sps);
    assert f[i] == Repeat(Stop, sps)[i - 9 * sps];
  }

  /** Samples `[(k+1)*sps, (k+2)*sps)` of a frame hold data bit `k`:
      the data goes out least significant bit first. */
  lemma FrameDataBit(b: Byte, sps: nat, k: nat, j: nat)
    requires k < 8 && j < sps
    ensures (k + 2) * sps <= 10 * sps
    ensures Frame(b, sps)[(k + 1) * sps + j] == Bit(b, k)
  {
    DataBitsAt(b, 8, sps, k, j);
    var f := Frame(b, sps);
    assert f == Repeat(Start, sps) + (DataBits(b, 8, sps) + Repeat(Stop, sps));
    assert (k + 1) * sps + j == sps + (k * sps + j);
    assert f[(k + 1) * sps + j] == DataBits(b, 8, sps)[k * sps + j];
  }

  lemma {:induction false} DataBitsBinary(b: Byte, n: nat, sps: nat)
    ensures IsBinary(DataBits(b, n, sps))
  {
    if n > 0 {
      DataBitsBinary(b, n - 1, sps);
    }
  }

  /** A frame holds only line levels. */
  lemma FrameBinary(b: Byte, sps: nat)
    ensures IsBinary(Frame(b, sps))
  {
    DataBitsBinary(b, 8, sps);
  }

  lemma {:induction false} FramesBinary(msg: seq<Byte>, sps: nat)
    ensures IsBinary(Frames(msg, sps))
  {
    if msg != [] {
      FramesBinary(msg[..|msg| - 1], sps);
      FrameBinary(msg[|msg| - 1], sps);
    }
  }

  // ---------------------------------------------------------------------
  // The frame determines the byte

  /** Reads data bits `k..8` of a frame back, least significant first,
      taking the first sample of each bit. */
  function DataValue(f: seq<Byte>, sps: nat, k: nat): nat
    requires sps > 0 && k <= 8 && |f| >= 10 * sps
    decreases 8 - k
  {
    if k == 8 then 0
    else
      MulLe(k + 1, 10, sps);
      f[(k + 1) * sps] + 2 * DataValue(f, sps, k + 1)
  }

  /** The byte a frame carries. */
  function Unframe(f: seq<Byte>, sps: nat): nat
    requires sps > 0 && |f| >= 10 * sps
  {
    DataValue(f, sps, 0)
  }

  lemma {:induction false} ShiftedBound(b: Byte, k: nat)
    requires k <= 8
    ensures Shifted(b, k) < Pow2(8 - k)
  {
    if k > 0 {
      ShiftedBound(b, k - 1);
      assert Pow2(8 - k + 1) == 2 * Pow2(8 - k);
    }
  }

  lemma {:induction false} DataValueOfFrame(b: Byte, sps: nat, k: nat)
    requires sps > 0 && k <= 8
    ensures DataValue(Frame(b, sps), sps, k) == Shifted(b, k)
    decreases 8 - k
  {
    if k == 8 {
      ShiftedBound(b, 8);
    } else {
      DataValueOfFrame(b, sps, k + 1);
      FrameDataBit(b, sps, k, 0);
    }
  }

  /** Framing loses nothing: the byte is read back from its frame. */
  lemma UnframeFrame(b: Byte, sps: nat)
    requires sps > 0
    ensures Unframe(Frame(b, sps), sps) == b
  {
    DataValueOfFrame(b, sps, 0);
  }

  /** Distinct bytes have distinct frames. */
  lemma FrameInjective(a: Byte, b: Byte, sps: nat)
    requires sps > 0 && Frame(a, sps) == Frame(b, sps)
    ensures a == b
  {
    UnframeFrame(a, sps);
    UnframeFrame(b, sps);
  }

  // ---------------------------------------------------------------------
  // Draining the FIFO

  /** `pop_front().unwrap_or(1)`: the front sample, or the idle level. */
  function Front(q: seq<Byte>): (r: Byte)
    ensures q != [] ==> r == q[0]
    ensures q == [] ==> r == Idle
    ensures IsBinary(q) ==> r <= 1
  {
    if q == [] then Idle else q[0]
  }

  /** `q` after `n` pops; popping an empty FIFO leaves it empty. */
  function Rest(q: seq<Byte>, n: nat): (r: seq<Byte>)
    ensures |r| == if n <= |q| then |q| - n else 0
    ensures forall i :: 0 <= i < |r| ==> r[i] == q[n + i]
  {
    if n <= |q| then q[n..] else []
  }

  /** The samples written by `n` successive pops. */
  function Drained(q: seq<Byte>, n: nat): (r: seq<Byte>)
    ensures |r| == n
  {
    if n == 0 then [] else [Front(q)] + Drained(Rest(q, 1), n - 1)
  }

  /** The buffer receives the queued samples first, in FIFO order, and the
      idle level in every position after them. */
  lemma {:induction false} DrainedLayout(q: seq<Byte>, n: nat, i: nat)
    requires i < n
    ensures i < |q| ==> Drained(q, n)[i] == q[i]
    ensures i >= |q| ==> Drained(q, n)[i] == Idle
  {
    if i > 0 {
      DrainedLayout(Rest(q, 1), n - 1, i - 1);
    }
  }

  /** Popping `a` and then `b` samples is popping `a + b`. */
  lemma RestRest(q: seq<Byte>, a: nat, b: nat)
    ensures Rest(Rest(q, a), b) == Rest(q, a + b)
  {
    if a + b <= |q| {
      assert q[a..][b..] == q[a + b..];
    }
  }

  /** Draining `a + b` samples at once writes what draining `a` and then
      `b` writes. */
  lemma {:induction false} DrainedSplit(q: seq<Byte>, a: nat, b: nat)
    ensures Drained(q, a + b) == Drained(q, a) + Drained(Rest(q, a), b)
    ensures Rest(q, a + b) == Rest(Rest(q, a), b)
  {
    RestRest(q, a, b);
    if a > 0 {
      var q1 := Rest(q, 1);
      DrainedSplit(q1, a - 1, b);
      RestRest(q, 1, a - 1);
      assert Drained(q, a + b) == [Front(q)] + Drained(q1, a - 1 + b);
      assert Drained(q, a) == [Front(q)] + Drained(q1, a - 1);
    }
  }

  /** An empty FIFO gives the idle level only. */
  lemma {:induction false} DrainedIdle(n: nat)
    ensures Drained([], n) == Repeat(Idle, n)
  {
    if n > 0 {
      DrainedIdle(n - 1);
    }
  }

  /** Draining exactly what is queued gives the queue back. */
  lemma {:induction false} DrainedAll(q: seq<Byte>)
    ensures Drained(q, |q|) == q
  {
    if q != [] {
      DrainedAll(q[1..]);
    }
  }

  /** Draining a FIFO of line levels writes line levels. */
  lemma DrainedBinary(q: seq<Byte>, n: nat)
    requires IsBinary(q)
    ensures IsBinary(Drained(q, n))
  {
    forall i | 0 <= i < n ensures Drained(q, n)[i] <= 1 {
      DrainedLayout(q, n, i);
    }
  }

  // ---------------------------------------------------------------------
  // The transmitter

  class UartTx {
    const samplesPerSymbol: nat
    var samples: seq<Byte>

    /** Every queued sample is a line level. */
    ghost predicate Valid()
      reads this
    {
      IsBinary(samples)
    }

    constructor (sps: nat)
      ensures Valid()
      ensures samplesPerSymbol == sps && samples == []
    {
      samplesPerSymbol := sps;
      samples := [];
    }

    /** Appends `bit` held for one symbol. */
    method PutBit(bit: Byte)
      requires Valid() && bit <= 1
      modifies this
      ensures Valid()
      ensures samples == old(samples) + Repeat(bit, samplesPerSymbol)
    {
      for n := 0 to samplesPerSymbol
        invariant Valid()
        invariant samples == old(samples) + Repeat(bit, n)
      {
        samples := samples + [bit];
      }
    }

    /** Appends the 8-N-1 frame of `byte`; the samples already queued stay. */
    method PutByte(byte: Byte)
      requires Valid()
      modifies this
      ensures Valid()
      ensures samples == old(samples) + Frame(byte, samplesPerSymbol)
    {
      PutBit(Start);
      var b := byte;
      for k := 0 to 8
        invariant Valid()
        invariant b == Shifted(byte, k)
        invariant samples == old(samples) + Repeat(Start, samplesPerSymbol) + DataBits(byte, k, samplesPerSymbol)
      {
        PutBit(b % 2);
        b := b / 2;
      }
      PutBit(Stop);
    }

    /** Fills `buffer` from the front of the FIFO, then with the idle level. */
    method GetSamples(buffer: array<Byte>)
      requires Valid()
      modifies this, buffer
      ensures Valid()
      ensures buffer[..] == Drained(old(samples), buffer.Length)
      ensures samples == Rest(old(samples), buffer.Length)
      ensures IsBinary(buffer[..])
    {
      ghost var q := samples;
      for i := 0 to buffer.Length
        invariant Valid()
        invariant buffer[..i] == Drained(q, i)
        invariant samples == Rest(q, i)
      {
        DrainedSplit(q, i, 1);
        if samples == [] {
          buffer[i] := Idle;
        } else {
          buffer[i] := samples[0];
          samples := samples[1..];
        }
        assert buffer[..i + 1] == buffer[..i] + [buffer[i]];
      }
      assert buffer[..] == buffer[..buffer.Length];
      DrainedBinary(q, buffer.Length);
    }
  }

  /** One round of how the transmitter is used: `idle` samples drained
      from an empty queue, then a message queued byte by byte and drained
      exactly. The queue is empty again afterwards. */
  method SendMessage(tx: UartTx, idle: nat, msg: seq<Byte>) returns (sent: seq<Byte>)
    requires tx.Valid() && tx.samples == []
    modifies tx
    ensures tx.Valid() && tx.samples == []
    ensures sent == Repeat(Idle, idle) + Frames(msg, tx.samplesPerSymbol)
  {
    var pad := new Byte[idle];
    tx.GetSamples(pad);
    DrainedIdle(idle);
    var before := pad[..];
    assert before == Repeat(Idle, idle);
    for k := 0 to |msg|
      invariant tx.Valid()
      invariant tx.samples == Frames(msg[..k], tx.samplesPerSymbol)
    {
      FramesPrefix(msg, k, tx.samplesPerSymbol);
      tx.PutByte(msg[k]);
    }
    assert msg[..|msg|] == msg;
    var queued := tx.samples;
    var buffer := new Byte[|queued|];
    DrainedAll(queued);
    tx.GetSamples(buffer);
    assert buffer[..] == queued;
    sent := before + buffer[..];
  }

  /** Many rounds on one transmitter: every round sees the idle level
      first and then exactly the frames of its own message. */
  method SendMessages(sps: nat, idles: seq<nat>, msgs: seq<seq<Byte>>) returns (sent: seq<seq<Byte>>)
    requires |idles| == |msgs|
    ensures |sent| == |msgs|
    ensures forall i :: 0 <= i < |msgs| ==> sent[i] == Repeat(Idle, idles[i]) + Frames(msgs[i], sps)
  {
    var tx := new UartTx(sps);
    sent := [];
    for i := 0 to |msgs|
      invariant tx.Valid() && tx.samples == [] && tx.samplesPerSymbol == sps
      invariant |sent| == i
      invariant forall j :: 0 <= j < i ==> sent[j] == Repeat(Idle, idles[j]) + Frames(msgs[j], sps)
    {
      var round := SendMessage(tx, idles[i], msgs[i]);
      sent := sent + [round];
    }
  }
}
