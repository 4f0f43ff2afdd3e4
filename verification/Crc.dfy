/**
 The CRC library of lib/crc/crc.c: a table filled once per polynomial, kept in a static instance,
 and used a byte at a time. One definition serves the four widths.
 */
module Crc {
  import opened Bits

  datatype Config = Config(poly: Word, init: Word, xorout: Word, refin: bool, refout: bool)

  predicate Fits(cfg: Config, width: nat) {
    |cfg.poly| == |cfg.init| == |cfg.xorout| == width
  }

  predicate Bytes(data: seq<Word>) {
    forall i :: 0 <= i < |data| ==> |data[i]| == 8
  }

  // ----- the reference: one message bit at a time

  /** One step of division: shift, and subtract the generator if a one fell out. */
  function Step(r: Word, poly: Word): (s: Word)
    requires |r| == |poly| > 0
    ensures |s| == |r|
  {
    if r[0] then Xor(Shl(r, 1), poly) else Shl(r, 1)
  }

  function Steps(r: Word, poly: Word, k: nat): (s: Word)
    requires |r| == |poly| > 0
    ensures |s| == |r|
    decreases k
  {
    if k == 0 then r else Steps(Step(r, poly), poly, k - 1)
  }

  /** Absorbs one message bit into the register. */
  function Absorb(r: Word, poly: Word, b: bool): (s: Word)
    requires |r| == |poly| > 0
    ensures |s| == |r|
  {
    if r[0] != b then Xor(Shl(r, 1), poly) else Shl(r, 1)
  }

  /** The bit-serial division of a message. */
  function Serial(r: Word, poly: Word, message: seq<bool>): (s: Word)
    requires |r| == |poly| > 0
    ensures |s| == |r|
    decreases |message|
  {
    if message == [] then r else Serial(Absorb(r, poly, message[0]), poly, message[1..])
  }

  /** The order in which the bits of a message are fed: each byte as it is, or reflected. */
  function Feed(data: seq<Word>, refin: bool): seq<bool> {
    if data == [] then [] else (if refin then Reverse(data[0]) else data[0]) + Feed(data[1..], refin)
  }

  function Reference(cfg: Config, data: seq<Word>): (crc: Word)
    requires 0 < |cfg.poly| && Fits(cfg, |cfg.poly|)
    ensures |crc| == |cfg.poly|
  {
    var r := Serial(cfg.init, cfg.poly, Feed(data, cfg.refin));
    Xor(if cfg.refout then Reverse(r) else r, cfg.xorout)
  }

  // ----- linearity

  lemma {:induction false} StepXor(a: Word, b: Word, poly: Word)
    requires |a| == |b| == |poly| > 0
    ensures Step(Xor(a, b), poly) == Xor(Step(a, poly), Step(b, poly))
  {
    assert Shl(Xor(a, b), 1) == Xor(Shl(a, 1), Shl(b, 1));
    var x, y := Shl(a, 1), Shl(b, 1);
    assert Xor(Xor(x, poly), Xor(y, poly)) == Xor(x, y);
    assert Xor(Xor(x, poly), y) == Xor(Xor(x, y), poly);
    assert Xor(x, Xor(y, poly)) == Xor(Xor(x, y), poly);
  }

  lemma {:induction false} StepsXor(a: Word, b: Word, poly: Word, k: nat)
    requires |a| == |b| == |poly| > 0
    ensures Steps(Xor(a, b), poly, k) == Xor(Steps(a, poly, k), Steps(b, poly, k))
    decreases k
  {
    if k > 0 {
      StepXor(a, b, poly);
      StepsXor(Step(a, poly), Step(b, poly), poly, k - 1);
    }
  }

  /** While only zeros fall out, dividing is shifting. */
  lemma {:induction false} StepsOfZeros(r: Word, poly: Word, k: nat)
    requires |r| == |poly| > 0 && k <= |r| && r[..k] == Zeros(k)
    ensures Steps(r, poly, k) == Shl(r, k)
    decreases k
  {
    if k > 0 {
      assert r[0] == r[..k][0] == false;
      var s := Shl(r, 1);
      assert s[..k - 1] == r[..k][1..];
      assert Zeros(k)[1..] == Zeros(k - 1);
      StepsOfZeros(s, poly, k - 1);
      assert Shl(s, k - 1) == Shl(r, k);
    }
  }

  function Pad(m: seq<bool>, width: nat): (p: Word)
    requires |m| <= width
    ensures |p| == width
  {
    m + Zeros(width - |m|)
  }

  lemma {:induction false} AbsorbIsStep(r: Word, poly: Word, b: bool)
    requires |r| == |poly| > 0
    ensures Absorb(r, poly, b) == Step(Xor(r, Pad([b], |r|)), poly)
  {
    assert Shl(Xor(r, Pad([b], |r|)), 1) == Shl(r, 1);
  }

  /** Feeding up to a register's worth of bits is adding them at the top and dividing. */
  lemma {:induction false} SerialIsSteps(r: Word, poly: Word, m: seq<bool>)
    requires |r| == |poly| > 0 && |m| <= |r|
    ensures Serial(r, poly, m) == Steps(Xor(r, Pad(m, |r|)), poly, |m|)
    decreases |m|
  {
    var w := |r|;
    if m == [] {
      assert Xor(r, Pad(m, w)) == r;
    } else {
      var first, rest := Pad([m[0]], w), [false] + m[1..] + Zeros(w - |m|);
      var r1 := Absorb(r, poly, m[0]);
      assert Xor(r, Pad(m, w)) == Xor(Xor(r, first), rest);
      AbsorbIsStep(r, poly, m[0]);
      StepXor(Xor(r, first), rest, poly);
      assert Step(rest, poly) == Pad(m[1..], w);
      SerialIsSteps(r1, poly, m[1..]);
    }
  }

  lemma {:induction false} SerialConcat(r: Word, poly: Word, a: seq<bool>, b: seq<bool>)
    requires |r| == |poly| > 0
    ensures Serial(r, poly, a + b) == Serial(Serial(r, poly, a), poly, b)
    decreases |a|
  {
    if a == [] {
      assert a + b == b;
    } else {
      assert (a + b)[1..] == a[1..] + b;
      SerialConcat(Absorb(r, poly, a[0]), poly, a[1..], b);
    }
  }

  // ----- the table

  function Entry(i: nat, poly: Word): (e: Word)
    requires |poly| >= 8
    ensures |e| == |poly|
  {
    Steps(Low(i, 8) + Zeros(|poly| - 8), poly, 8)
  }

  /** One table lookup does the work of eight serial steps. */
  lemma {:induction false} LookupIsSerial(r: Word, poly: Word, d: Word)
    requires |r| == |poly| >= 8 && |d| == 8
    ensures Xor(Entry(Value(Xor(r[..8], d)), poly), Shl(r, 8)) == Serial(r, poly, d)
  {
    hide Steps, Serial, Value, Low;
    var byte := Xor(r[..8], d);
    var top, low := byte + Zeros(|r| - 8), Zeros(8) + r[8..];
    LowOfValue(byte);
    SerialIsSteps(r, poly, d);
    SplitTop(r, d);
    StepsXor(top, low, poly, 8);
    StepsOfZeros(low, poly, 8);
  }

  /** A byte added at the top of the register, seen as its own word plus the rest of the register. */
  lemma {:induction false} SplitTop(r: Word, d: Word)
    requires |r| >= 8 && |d| == 8
    ensures Xor(r, Pad(d, |r|)) == Xor(Xor(r[..8], d) + Zeros(|r| - 8), Zeros(8) + r[8..])
    ensures (Zeros(8) + r[8..])[..8] == Zeros(8)
    ensures Shl(Zeros(8) + r[8..], 8) == Shl(r, 8)
  {
  }

  ghost predicate TableFor(table: seq<Word>, poly: Word)
    requires |poly| >= 8
  {
    |table| == 256 && forall i: nat :: i < 256 ==> table[i] == Entry(i, poly)
  }

  class Instance {
    const width: nat
    var poly: Word
    const table: array<Word>

    /** The table belongs to the cached polynomial unless none has been cached yet. */
    ghost predicate Valid()
      reads this, table
    {
      && (width == 8 || width == 16 || width == 32 || width == 64)
      && |poly| == width && table.Length == 256
      && (poly != Zeros(width) ==> TableFor(table[..], poly))
    }

    constructor (width: nat)
      requires width == 8 || width == 16 || width == 32 || width == 64
      ensures Valid() && fresh(table) && this.width == width && poly == Zeros(width)
    {
      this.width := width;
      poly := Zeros(width);
      table := new Word[256](_ => Zeros(width));
    }

    method InitTable(gen: Word)
      requires table.Length == 256 && |gen| == width >= 8
      modifies table
      ensures TableFor(table[..], gen)
    {
      hide Xor, Shl, Zeros, Low;
      var i := 0;
      while i <= 255
        invariant i <= 256
        invariant forall j: nat :: j < i ==> table[j] == Entry(j, gen)
      {
        var remainder := Low(i, 8) + Zeros(width - 8);
        var bit := 0;
        while bit < 8
          invariant bit <= 8 && |remainder| == width
          invariant Steps(remainder, gen, 8 - bit) == Entry(i, gen)
        {
          if remainder[0] {
            remainder := Xor(Shl(remainder, 1), gen);
          } else {
            remainder := Shl(remainder, 1);
          }
          bit := bit + 1;
        }
        table[i] := remainder;
        i := i + 1;
      }
    }

    /** Whatever polynomial was used before, the result is that of bit-serial division. */
    method Calculate(cfg: Config, data: seq<Word>) returns (crc: Word)
      requires Valid() && Fits(cfg, width) && Bytes(data)
      modifies this`poly, table
      ensures Valid() && poly == cfg.poly
      ensures crc == Reference(cfg, data)
    {
      hide Serial, Feed, Xor, Shl, Value, Entry, Zeros, Reverse8Bits, ReverseBits;
      if poly == Zeros(width) || poly != cfg.poly {
        InitTable(cfg.poly);
        poly := cfg.poly;
      }
      var remainder := cfg.init;
      var i := 0;
      assert data[0..] == data;
      while i < |data|
        invariant i <= |data| && |remainder| == width
        invariant poly == cfg.poly && TableFor(table[..], cfg.poly)
        invariant Serial(remainder, cfg.poly, Feed(data[i..], cfg.refin)) == Serial(cfg.init, cfg.poly, Feed(data, cfg.refin))
      {
        var d := if cfg.refin then Reverse8Bits(data[i]) else data[i];
        var byte := Xor(remainder[..8], d);
        IndexOfByte(byte);
        FeedNext(data, i, cfg.refin, d);
        LookupIsSerial(remainder, cfg.poly, d);
        SerialConcat(remainder, cfg.poly, d, Feed(data[i + 1..], cfg.refin));
        assert table[..][Value(byte)] == Entry(Value(byte), cfg.poly);
        if width == 8 {
          ShiftedOut(table[Value(byte)], remainder);
          remainder := table[Value(byte)];
        } else {
          remainder := Xor(table[Value(byte)], Shl(remainder, 8));
        }
        i := i + 1;
      }
      NothingLeft(remainder, cfg.poly, data, cfg.refin);
      if cfg.refout {
        remainder := ReverseBits(remainder);
      }
      crc := Xor(remainder, cfg.xorout);
    }

    /** Any sequence of calls, with polynomials changing as they like, is as if each built its own table. */
    method CalculateAll(calls: seq<(Config, seq<Word>)>) returns (crcs: seq<Word>)
      requires Valid() && forall i :: 0 <= i < |calls| ==> Fits(calls[i].0, width) && Bytes(calls[i].1)
      modifies this`poly, table
      ensures Valid() && |crcs| == |calls|
      ensures forall i :: 0 <= i < |calls| ==> Fits(calls[i].0, width) && crcs[i] == Reference(calls[i].0, calls[i].1)
    {
      hide Reference, TableFor;
      crcs := [];
      for i := 0 to |calls|
        invariant Valid() && |crcs| == i
        invariant forall j :: 0 <= j < i ==> Fits(calls[j].0, width) && crcs[j] == Reference(calls[j].0, calls[j].1)
      {
        var crc := Calculate(calls[i].0, calls[i].1);
        crcs := crcs + [crc];
      }
    }
  }

  /** An 8-bit register is empty after a shift by 8, which is why the CRC-8 loop leaves it out. */
  lemma {:induction false} ShiftedOut(e: Word, r: Word)
    requires |e| == |r| == 8
    ensures Xor(e, Shl(r, 8)) == e
  {
  }

  lemma {:induction false} NothingLeft(r: Word, poly: Word, data: seq<Word>, refin: bool)
    requires |r| == |poly| > 0
    ensures Serial(r, poly, Feed(data[|data|..], refin)) == r
  {
  }

  lemma {:induction false} FeedNext(data: seq<Word>, i: nat, refin: bool, d: Word)
    requires i < |data| && d == if refin then Reverse(data[i]) else data[i]
    ensures Feed(data[i..], refin) == d + Feed(data[i + 1..], refin)
  {
    assert data[i..][1..] == data[i + 1..];
  }

  // ----- reflection

  function StepLsb(r: Word, poly: Word): (s: Word)
    requires |r| == |poly| > 0
    ensures |s| == |r|
  {
    if r[|r| - 1] then Xor(Shr(r, 1), poly) else Shr(r, 1)
  }

  function StepsLsb(r: Word, poly: Word, k: nat): (s: Word)
    requires |r| == |poly| > 0
    ensures |s| == |r|
    decreases k
  {
    if k == 0 then r else StepsLsb(StepLsb(r, poly), poly, k - 1)
  }

  /** The register algorithm that shifts right: add a byte at the bottom, then eight steps. */
  function Lsb(r: Word, poly: Word, data: seq<Word>): (s: Word)
    requires |r| == |poly| >= 8 && Bytes(data)
    ensures |s| == |r|
    decreases |data|
  {
    if data == [] then r
    else Lsb(StepsLsb(Xor(r, Zeros(|r| - 8) + data[0]), poly, 8), poly, data[1..])
  }

  lemma {:induction false} ReverseShl(r: Word)
    requires |r| > 0
    ensures Reverse(Shl(r, 1)) == Shr(Reverse(r), 1) && Reverse(r)[|r| - 1] == r[0]
  {
  }

  lemma {:induction false} ReverseStep(r: Word, poly: Word)
    requires |r| == |poly| > 0
    ensures Reverse(Step(r, poly)) == StepLsb(Reverse(r), Reverse(poly))
  {
    hide Shl, Shr, Xor, Reverse;
    ReverseShl(r);
    ReverseXor(Shl(r, 1), poly);
  }

  lemma {:induction false} ReverseSteps(r: Word, poly: Word, k: nat)
    requires |r| == |poly| > 0
    ensures Reverse(Steps(r, poly, k)) == StepsLsb(Reverse(r), Reverse(poly), k)
    decreases k
  {
    hide Step, Reverse, StepLsb;
    if k > 0 {
      ReverseStep(r, poly);
      ReverseSteps(Step(r, poly), poly, k - 1);
    }
  }

  lemma {:induction false} ReflectedSerial(r: Word, poly: Word, data: seq<Word>)
    requires |r| == |poly| >= 8 && Bytes(data)
    ensures Reverse(Serial(r, poly, Feed(data, true))) == Lsb(Reverse(r), Reverse(poly), data)
    decreases |data|
  {
    hide Reverse, StepsLsb, Xor, Zeros;
    if data != [] {
      var d := Reverse(data[0]);
      SerialConcat(r, poly, d, Feed(data[1..], true));
      ReflectedByte(r, poly, data[0]);
      ReflectedSerial(Serial(r, poly, d), poly, data[1..]);
    }
  }

  lemma {:induction false} ReflectedByte(r: Word, poly: Word, byte: Word)
    requires |r| == |poly| >= 8 && |byte| == 8
    ensures Reverse(Serial(r, poly, Reverse(byte))) == StepsLsb(Xor(Reverse(r), Zeros(|r| - 8) + byte), Reverse(poly), 8)
  {
    hide Serial, Steps, StepsLsb, Xor;
    var d := Reverse(byte);
    SerialIsSteps(r, poly, d);
    ReverseSteps(Xor(r, Pad(d, |r|)), poly, 8);
    ReverseXor(r, Pad(d, |r|));
    assert Reverse(Pad(d, |r|)) == Zeros(|r| - 8) + byte;
  }

  /** With both reflections on, the result is that of the right-shifting register algorithm. */
  lemma {:induction false} ReflectedIsLsbFirst(cfg: Config, data: seq<Word>)
    requires |cfg.poly| >= 8 && Fits(cfg, |cfg.poly|) && Bytes(data) && cfg.refin && cfg.refout
    ensures Reference(cfg, data) == Xor(Lsb(Reverse(cfg.init), Reverse(cfg.poly), data), cfg.xorout)
  {
    ReflectedSerial(cfg.init, cfg.poly, data);
  }

  // ----- what each setting does

  function ReverseEach(data: seq<Word>): seq<Word> {
    seq(|data|, i requires 0 <= i < |data| => Reverse(data[i]))
  }

  lemma {:induction false} FeedReversed(data: seq<Word>)
    ensures Feed(data, true) == Feed(ReverseEach(data), false)
    decreases |data|
  {
    if data != [] {
      assert ReverseEach(data)[1..] == ReverseEach(data[1..]);
      FeedReversed(data[1..]);
    }
  }

  /**
   The settings of a configuration: reflected input is the input with the bits of every byte reversed,
   reflected output is the reversed result, the final value is added to it, and no input leaves the
   initial value.
   */
  lemma {:induction false} SettingsAreIndependent(cfg: Config, data: seq<Word>)
    requires 0 < |cfg.poly| && Fits(cfg, |cfg.poly|)
    ensures Reference(cfg.(refin := true), data) == Reference(cfg.(refin := false), ReverseEach(data))
    ensures var raw := cfg.(refout := false, xorout := Zeros(|cfg.poly|));
            && Reference(cfg.(refout := false), data) == Xor(Reference(raw, data), cfg.xorout)
            && Reference(cfg.(refout := true), data) == Xor(Reverse(Reference(raw, data)), cfg.xorout)
            && Reference(raw, []) == cfg.init
  {
    hide Xor, Reverse, Zeros, Serial;
    FeedReversed(data);
    XorZeros(Serial(cfg.init, cfg.poly, Feed(data, cfg.refin)));
    XorZeros(cfg.init);
    NothingFed(cfg);
  }

  lemma {:induction false} NothingFed(cfg: Config)
    requires 0 < |cfg.poly| && Fits(cfg, |cfg.poly|)
    ensures Serial(cfg.init, cfg.poly, Feed([], cfg.refin)) == cfg.init
  {
  }

  lemma {:induction false} XorZeros(w: Word)
    ensures Xor(w, Zeros(|w|)) == w
  {
  }

  // ----- error detection

  /** With the generator's constant term set, division loses nothing. */
  lemma {:induction false} StepInjective(a: Word, b: Word, poly: Word)
    requires |a| == |b| == |poly| > 0 && poly[|poly| - 1] && Step(a, poly) == Step(b, poly)
    ensures a == b
  {
    var w := |a|;
    assert Step(a, poly)[w - 1] == a[0] && Step(b, poly)[w - 1] == b[0];
    if a[0] {
      XorCancel(Shl(a, 1), Shl(b, 1), poly);
    }
    assert Shl(a, 1) == Shl(b, 1);
    forall i | 1 <= i < w ensures a[i] == b[i] {
      assert Shl(a, 1)[i - 1] == Shl(b, 1)[i - 1];
    }
  }

  lemma {:induction false} StepsInjective(a: Word, b: Word, poly: Word, k: nat)
    requires |a| == |b| == |poly| > 0 && poly[|poly| - 1] && Steps(a, poly, k) == Steps(b, poly, k)
    ensures a == b
    decreases k
  {
    if k > 0 {
      StepsInjective(Step(a, poly), Step(b, poly), poly, k - 1);
      StepInjective(a, b, poly);
    }
  }

  lemma {:induction false} SerialInjective(a: Word, b: Word, poly: Word, m: seq<bool>)
    requires |a| == |b| == |poly| > 0 && poly[|poly| - 1] && Serial(a, poly, m) == Serial(b, poly, m)
    ensures a == b
    decreases |m|
  {
    if m != [] {
      var p := Pad([m[0]], |a|);
      AbsorbIsStep(a, poly, m[0]);
      AbsorbIsStep(b, poly, m[0]);
      SerialInjective(Absorb(a, poly, m[0]), Absorb(b, poly, m[0]), poly, m[1..]);
      StepInjective(Xor(a, p), Xor(b, p), poly);
      XorCancel(a, b, p);
    }
  }

  lemma {:induction false} PadInjective(x: seq<bool>, y: seq<bool>, width: nat)
    requires |x| == |y| <= width && Pad(x, width) == Pad(y, width)
    ensures x == y
  {
    assert x == Pad(x, width)[..|x|] && y == Pad(y, width)[..|y|];
  }

  /** Two messages that differ only in one window no longer than the register divide differently. */
  lemma {:induction false} WindowDetected(r: Word, poly: Word, pre: seq<bool>, x: seq<bool>, y: seq<bool>, post: seq<bool>)
    requires |r| == |poly| > 0 && poly[|poly| - 1] && |x| == |y| <= |r|
    requires Serial(r, poly, pre + x + post) == Serial(r, poly, pre + y + post)
    ensures x == y
  {
    hide Serial;
    var s := Serial(r, poly, pre);
    SerialConcat(r, poly, pre + x, post);
    SerialConcat(r, poly, pre + y, post);
    SerialConcat(r, poly, pre, x);
    SerialConcat(r, poly, pre, y);
    SerialInjective(Serial(s, poly, x), Serial(s, poly, y), poly, post);
    SameWindow(s, poly, x, y);
  }

  lemma {:induction false} SameWindow(s: Word, poly: Word, x: seq<bool>, y: seq<bool>)
    requires |s| == |poly| > 0 && poly[|poly| - 1] && |x| == |y| <= |s|
    requires Serial(s, poly, x) == Serial(s, poly, y)
    ensures x == y
  {
    hide Serial, Steps, Xor, Pad;
    SerialIsSteps(s, poly, x);
    SerialIsSteps(s, poly, y);
    var px, py := Pad(x, |s|), Pad(y, |s|);
    StepsInjective(Xor(s, px), Xor(s, py), poly, |x|);
    XorCommutes(px, s);
    XorCommutes(py, s);
    XorCancel(px, py, s);
    PadInjective(x, y, |s|);
  }

  lemma {:induction false} FeedConcat(a: seq<Word>, b: seq<Word>, refin: bool)
    ensures Feed(a + b, refin) == Feed(a, refin) + Feed(b, refin)
  {
    if a == [] {
      assert a + b == b;
    } else {
      assert (a + b)[1..] == a[1..] + b;
      FeedConcat(a[1..], b, refin);
    }
  }

  lemma {:induction false} FeedLength(a: seq<Word>, refin: bool)
    requires Bytes(a)
    ensures |Feed(a, refin)| == 8 * |a|
  {
    if a != [] {
      FeedLength(a[1..], refin);
    }
  }

  /** The first byte fed, and the rest. */
  lemma {:induction false} FeedSplit(a: seq<Word>, refin: bool)
    requires Bytes(a) && a != []
    ensures |Feed(a, refin)| >= 8 && Feed(a, refin)[8..] == Feed(a[1..], refin)
    ensures Feed(a, refin)[..8] == if refin then Reverse(a[0]) else a[0]
  {
    hide Reverse;
  }

  lemma {:induction false} FeedInjective(a: seq<Word>, b: seq<Word>, refin: bool)
    requires Bytes(a) && Bytes(b) && |a| == |b| && Feed(a, refin) == Feed(b, refin)
    ensures a == b
  {
    hide Feed, Reverse;
    if a != [] {
      FeedSplit(a, refin);
      FeedSplit(b, refin);
      ReverseTwice(a[0]);
      ReverseTwice(b[0]);
      FeedInjective(a[1..], b[1..], refin);
      assert a == [a[0]] + a[1..] && b == [b[0]] + b[1..];
    }
  }

  /**
   For every configuration whose generator has its constant term, two messages of one length that
   differ only within width/8 consecutive bytes have different CRCs.
   */
  lemma {:induction false} BurstDetected(cfg: Config, pre: seq<Word>, x: seq<Word>, y: seq<Word>, post: seq<Word>)
    requires |cfg.poly| > 0 && Fits(cfg, |cfg.poly|) && cfg.poly[|cfg.poly| - 1]
    requires Bytes(pre) && Bytes(x) && Bytes(y) && Bytes(post)
    requires |x| == |y| && 8 * |x| <= |cfg.poly| && x != y
    ensures Reference(cfg, pre + x + post) != Reference(cfg, pre + y + post)
  {
    if Reference(cfg, pre + x + post) == Reference(cfg, pre + y + post) {
      var f := (m: seq<Word>) => Feed(m, cfg.refin);
      FeedConcat(pre + x, post, cfg.refin);
      FeedConcat(pre + y, post, cfg.refin);
      FeedConcat(pre, x, cfg.refin);
      FeedConcat(pre, y, cfg.refin);
      FeedLength(x, cfg.refin);
      FeedLength(y, cfg.refin);
      SameReference(cfg, pre + x + post, pre + y + post);
      WindowDetected(cfg.init, cfg.poly, f(pre), f(x), f(y), f(post));
      FeedInjective(x, y, cfg.refin);
    }
  }

  lemma {:induction false} SameReference(cfg: Config, a: seq<Word>, b: seq<Word>)
    requires |cfg.poly| > 0 && Fits(cfg, |cfg.poly|) && Reference(cfg, a) == Reference(cfg, b)
    ensures Serial(cfg.init, cfg.poly, Feed(a, cfg.refin)) == Serial(cfg.init, cfg.poly, Feed(b, cfg.refin))
  {
    var r, s := Serial(cfg.init, cfg.poly, Feed(a, cfg.refin)), Serial(cfg.init, cfg.poly, Feed(b, cfg.refin));
    if cfg.refout {
      XorCancel(Reverse(r), Reverse(s), cfg.xorout);
      ReverseTwice(r);
      ReverseTwice(s);
    } else {
      XorCancel(r, s, cfg.xorout);
    }
  }

  /** The bytes of a word, most significant first. */
  function BytesOf(w: Word): (b: seq<Word>)
    requires |w| % 8 == 0
    ensures Bytes(b) && 8 * |b| == |w|
  {
    if w == [] then [] else [w[..8]] + BytesOf(w[8..])
  }

  lemma {:induction false} FeedBytesOf(w: Word)
    requires |w| % 8 == 0
    ensures Feed(BytesOf(w), false) == w
  {
    if w != [] {
      FeedBytesOf(w[8..]);
      assert BytesOf(w)[1..] == BytesOf(w[8..]);
    }
  }

  lemma {:induction false} StepsOfZero(poly: Word, k: nat)
    requires |poly| > 0
    ensures Steps(Zeros(|poly|), poly, k) == Zeros(|poly|)
    decreases k
  {
    if k > 0 {
      assert Shl(Zeros(|poly|), 1) == Zeros(|poly|);
      StepsOfZero(poly, k - 1);
    }
  }

  /** Without reflection and final inversion, a message followed by its own CRC leaves nothing. */
  lemma {:induction false} AppendedCrcLeavesZero(cfg: Config, data: seq<Word>)
    requires |cfg.poly| > 0 && |cfg.poly| % 8 == 0 && Fits(cfg, |cfg.poly|)
    requires !cfg.refin && !cfg.refout && cfg.xorout == Zeros(|cfg.poly|)
    ensures Reference(cfg, data + BytesOf(Reference(cfg, data))) == Zeros(|cfg.poly|)
  {
    var w := |cfg.poly|;
    var c := Serial(cfg.init, cfg.poly, Feed(data, false));
    assert Xor(c, Zeros(w)) == c;
    FeedConcat(data, BytesOf(c), false);
    FeedBytesOf(c);
    SerialConcat(cfg.init, cfg.poly, Feed(data, false), c);
    SerialIsSteps(c, cfg.poly, c);
    assert Pad(c, w) == c;
    XorSame(c);
    StepsOfZero(cfg.poly, w);
  }

  /** CRC-16/T10-DIF: generator 8BB7h, no reflection, zero start and end values. */
  const T10_DIF_POLY: Word := [true, false, false, false, true, false, true, true,
                              true, false, true, true, false, true, true, true]

  const T10_DIF := Config(T10_DIF_POLY, Zeros(16), Zeros(16), false, false)

  /** The generator is 8BB7h, and so the CRC of the single byte 01h. */
  lemma {:induction false} T10DifOfOne()
    ensures T10_DIF_POLY == Low(0x8bb7, 16) && T10_DIF.init == Zeros(16)
    ensures Reference(T10_DIF, [Low(1, 8)]) == Low(0x8bb7, 16)
  {
    GeneratorBits();
    OneBit(T10_DIF_POLY);
    OneBitByte();
    assert Feed([Low(1, 8)], false) == Zeros(7) + [true] by {
      assert [Low(1, 8)][1..] == [];
      assert Feed([], false) == [];
    }
    assert Xor(T10_DIF_POLY, Zeros(16)) == T10_DIF_POLY;
  }

  /** Seven zeros and a one leave the generator in an empty register. */
  lemma {:induction false} OneBit(poly: Word)
    requires |poly| > 0
    ensures Serial(Zeros(|poly|), poly, Zeros(7) + [true]) == poly
  {
    var z := Zeros(|poly|);
    SerialConcat(z, poly, Zeros(7), [true]);
    ZerosLeaveZero(poly, 7);
    assert Shl(z, 1) == z && Xor(z, poly) == poly;
    assert Absorb(z, poly, true) == poly;
    assert [true][1..] == [];
  }

  lemma {:induction false} ZerosLeaveZero(poly: Word, k: nat)
    requires |poly| > 0
    ensures Serial(Zeros(|poly|), poly, Zeros(k)) == Zeros(|poly|)
  {
    if k > 0 {
      var z := Zeros(|poly|);
      assert Shl(z, 1) == z && Absorb(z, poly, false) == z;
      assert Zeros(k)[1..] == Zeros(k - 1);
      ZerosLeaveZero(poly, k - 1);
    }
  }

  lemma {:induction false} OneBitByte()
    ensures Low(1, 8) == Zeros(7) + [true]
  {
    LowOfZero(7);
  }

  lemma {:induction false} LowOfZero(n: nat)
    ensures Low(0, n) == Zeros(n)
  {
    if n > 0 {
      LowOfZero(n - 1);
    }
  }

  lemma {:induction false} GeneratorBits()
    ensures T10_DIF_POLY == Low(0x8bb7, 16)
  {
    var poly := T10_DIF_POLY;
    assert Value(poly[..4]) == 0x8 by {
      assert poly[..4] == [] + [true, false, false, false];
      NibbleValue([], [true, false, false, false]);
    }
    assert Value(poly[..8]) == 0x8b by {
      assert poly[..8] == poly[..4] + [true, false, true, true];
      NibbleValue(poly[..4], [true, false, true, true]);
    }
    assert Value(poly[..12]) == 0x8bb by {
      assert poly[..12] == poly[..8] + [true, false, true, true];
      NibbleValue(poly[..8], [true, false, true, true]);
    }
    assert poly == poly[..12] + [false, true, true, true];
    NibbleValue(poly[..12], [false, true, true, true]);
    LowOfValue(poly);
  }

  lemma {:induction false} NibbleValue(w: Word, x: Word)
    requires |x| == 4
    ensures Value(w + x) == 16 * Value(w) + (if x[0] then 8 else 0) + (if x[1] then 4 else 0)
                            + (if x[2] then 2 else 0) + if x[3] then 1 else 0
  {
    assert w + x == (((w + [x[0]]) + [x[1]]) + [x[2]]) + [x[3]];
    BitValue(((w + [x[0]]) + [x[1]]) + [x[2]], x[3]);
    BitValue((w + [x[0]]) + [x[1]], x[2]);
    BitValue(w + [x[0]], x[1]);
    BitValue(w, x[0]);
  }

  lemma {:induction false} BitValue(w: Word, b: bool)
    ensures Value(w + [b]) == 2 * Value(w) + if b then 1 else 0
  {
    assert (w + [b])[..|w|] == w;
  }

  lemma {:induction false} T10DifGuardsItself(data: seq<Word>)
    ensures Reference(T10_DIF, data + BytesOf(Reference(T10_DIF, data))) == Zeros(16)
  {
    AppendedCrcLeavesZero(T10_DIF, data);
  }
}
