/** The stream cipher of stage/cipher/RC4.cpp: a key-scheduled box of `mod` numbers, a
    key stream taken from it, and the bytes combined with the stream by exclusive or and
    subtraction. */
module Rc4 {
  import opened Common

  /** The numbers 0 to n - 1 in some order. */
  ghost predicate IsPermutation(box: seq<int>, n: int) {
    && |box| == n
    && (forall i :: 0 <= i < n ==> 0 <= box[i] < n)
    && (forall i, j :: 0 <= i < j < n ==> box[i] != box[j])
  }

  function Swap(box: seq<int>, i: nat, j: nat): seq<int>
    requires i < |box| && j < |box|
  {
    box[i := box[j]][j := box[i]]
  }

  lemma SwapKeepsPermutation(box: seq<int>, n: int, i: nat, j: nat)
    requires IsPermutation(box, n) && i < n && j < n
    ensures IsPermutation(Swap(box, i, j), n)
  {
  }

  // ---------------------------------------------------------------- key stream

  function Identity(n: nat): (box: seq<int>)
    ensures IsPermutation(box, n)
  {
    seq(n, i => i)
  }

  /** The key schedule from step i on. */
  function Mix(box: seq<int>, key: seq<Byte>, i: nat, j: int): (r: seq<int>)
    requires key != [] && i <= |box| && j >= 0 && IsPermutation(box, |box|)
    ensures IsPermutation(r, |box|)
    decreases |box| - i
  {
    if i == |box| then box
    else
      var next := (j + box[i] + key[i % |key|]) % |box|;
      SwapKeepsPermutation(box, |box|, i, next);
      Mix(Swap(box, i, next), key, i + 1, next)
  }

  /** The box and the moving index between two bytes. */
  datatype Generator = Generator(box: seq<int>, high: int)

  ghost predicate Sound(g: Generator, mod: int) {
    0 < mod < 256 && IsPermutation(g.box, mod) && 0 <= g.high < mod
  }

  function Start(mod: nat, key: seq<Byte>): (g: Generator)
    requires 0 < mod < 256 && key != []
    ensures Sound(g, mod)
  {
    Generator(Mix(Identity(mod), key, 0, 0), 0)
  }

  /** One byte of the stream. The low index starts at 0 and is only ever reduced, so
      the swap is always with the first entry. */
  function Step(g: Generator, i: nat, mod: nat): (r: (Generator, Byte))
    requires Sound(g, mod)
    ensures Sound(r.0, mod) && r.1 < mod
  {
    var high := (g.high + g.box[i % mod]) % mod;
    SwapKeepsPermutation(g.box, mod, 0, high);
    var box := Swap(g.box, 0, high);
    (Generator(box, high), box[(box[0] + box[high]) % mod])
  }

  /** n bytes of the stream from byte i on. */
  function Stream(g: Generator, i: nat, n: nat, mod: nat): (s: seq<Byte>)
    requires Sound(g, mod)
    ensures |s| == n
    decreases n
  {
    if n == 0 then []
    else
      var (next, k) := Step(g, i, mod);
      [k] + Stream(next, i + 1, n - 1, mod)
  }

  // ---------------------------------------------------------------- bytes

  /** (unsigned char)n */
  function Truncate(n: int): Byte {
    n % 256
  }

  function BitXor(p: nat, q: nat): nat {
    if p == q then 0 else 1
  }

  /** Exclusive or of the low n bits. */
  function XorBits(a: nat, b: nat, n: nat): nat {
    if n == 0 then 0 else BitXor(a % 2, b % 2) + 2 * XorBits(a / 2, b / 2, n - 1)
  }

  ghost function Pow2(n: nat): nat {
    if n == 0 then 1 else 2 * Pow2(n - 1)
  }

  lemma LowBit(low: nat, high: nat)
    requires low < 2
    ensures (low + 2 * high) % 2 == low && (low + 2 * high) / 2 == high
  {
  }

  lemma {:induction false} XorBitsUndone(a: nat, b: nat, n: nat)
    requires a < Pow2(n)
    ensures XorBits(a, b, n) < Pow2(n) && XorBits(XorBits(a, b, n), b, n) == a
  {
    if n > 0 {
      var half := XorBits(a / 2, b / 2, n - 1);
      XorBitsUndone(a / 2, b / 2, n - 1);
      LowBit(BitXor(a % 2, b % 2), half);
      XorBitsStep(XorBits(a, b, n), b, n);
    }
  }

  lemma XorBitsStep(a: nat, b: nat, n: nat)
    requires n > 0
    ensures XorBits(a, b, n) == BitXor(a % 2, b % 2) + 2 * XorBits(a / 2, b / 2, n - 1)
  {
  }

  function Xor(a: Byte, b: Byte): Byte {
    XorInRange(a, b);
    XorBits(a, b, 8)
  }

  lemma XorInRange(a: Byte, b: Byte)
    ensures XorBits(a, b, 8) < 256
  {
    assert Pow2(8) == 256;
    XorBitsUndone(a, b, 8);
  }

  lemma XorUndone(a: Byte, b: Byte)
    ensures Xor(Xor(a, b), b) == a
  {
    assert Pow2(8) == 256;
    hide XorBits;
    XorBitsUndone(a, b, 8);
  }

  /** The byte written for a data byte and a byte of the stream. */
  function Combine(d: Byte, k: Byte, subtract: int, encrypt: bool): Byte {
    var x := Truncate(if encrypt then subtract else -subtract);
    if encrypt then Truncate(Xor(d, k) - x) else Xor(Truncate(d - x), k)
  }

  lemma TruncateNear(x: int)
    ensures -256 <= x < 0 ==> Truncate(x) == x + 256
    ensures 0 <= x < 256 ==> Truncate(x) == x
  {
  }

  lemma TruncateIs(q: int, r: int)
    requires 0 <= r < 256
    ensures Truncate(256 * q + r) == r
  {
  }

  lemma TruncateNegative(n: int)
    ensures Truncate(-n) == if Truncate(n) == 0 then 0 else 256 - Truncate(n)
  {
    var q, t := n / 256, n - 256 * (n / 256);
    hide Truncate;
    TruncateIs(q, t);
    if t == 0 {
      TruncateIs(-q, 0);
    } else {
      TruncateIs(-q - 1, 256 - t);
    }
  }

  lemma SubtractUndone(d: Byte, n: int)
    ensures Truncate(Truncate(d - Truncate(n)) - Truncate(-n)) == d
  {
    TruncateNegative(n);
    hide Truncate;
    TruncateNear(d - Truncate(n));
    TruncateNear(Truncate(d - Truncate(n)) - Truncate(-n));
  }

  lemma CombineUndone(d: Byte, k: Byte, subtract: int, encrypt: bool)
    ensures Combine(Combine(d, k, subtract, encrypt), k, subtract, !encrypt) == d
  {
    hide Xor, Truncate;
    if encrypt {
      SubtractUndone(Xor(d, k), subtract);
      XorUndone(d, k);
    } else {
      XorUndone(Truncate(d - Truncate(-subtract)), k);
      SubtractUndone(d, -subtract);
    }
  }

  function CombineAll(data: seq<Byte>, stream: seq<Byte>, subtract: int, encrypt: bool): (r: seq<Byte>)
    requires |data| == |stream|
    ensures |r| == |data|
    ensures forall k :: 0 <= k < |r| ==> r[k] == Combine(data[k], stream[k], subtract, encrypt)
  {
    seq(|data|, k requires 0 <= k < |data| => Combine(data[k], stream[k], subtract, encrypt))
  }

  /** What rc4_crypt makes of the data. */
  function Crypt(mod: nat, key: seq<Byte>, data: seq<Byte>, subtract: int, encrypt: bool): (r: seq<Byte>)
    requires 0 < mod < 256 && key != []
    ensures |r| == |data|
  {
    CombineAll(data, Stream(Start(mod, key), 0, |data|, mod), subtract, encrypt)
  }

  /** Decryption undoes encryption, and encryption undoes decryption. */
  lemma CryptUndone(mod: nat, key: seq<Byte>, data: seq<Byte>, subtract: int, encrypt: bool)
    requires 0 < mod < 256 && key != []
    ensures Crypt(mod, key, Crypt(mod, key, data, subtract, encrypt), subtract, !encrypt) == data
  {
    hide Combine, Stream, Start;
    var stream := Stream(Start(mod, key), 0, |data|, mod);
    forall k | 0 <= k < |data|
      ensures Combine(Combine(data[k], stream[k], subtract, encrypt), stream[k], subtract, !encrypt) == data[k]
    {
      CombineUndone(data[k], stream[k], subtract, encrypt);
    }
  }

  // ---------------------------------------------------------------- what the stream is

  /** The places i and j are exchanged, and nothing else. */
  ghost predicate Exchanged(before: seq<int>, after: seq<int>, i: int, j: int) {
    && 0 <= i < |before| == |after| && 0 <= j < |before|
    && after[i] == before[j] && after[j] == before[i]
    && forall k :: 0 <= k < |before| && k != i && k != j ==> after[k] == before[k]
  }

  /** The boxes and indexes of the key schedule from step i on, up to its last box. */
  ghost predicate ScheduleTrace(mod: nat, key: seq<Byte>, i: nat, boxes: seq<seq<int>>, js: seq<int>)
    requires 0 < mod && key != []
  {
    && i <= mod && |boxes| == |js| == mod - i + 1
    && (forall n :: 0 <= n < |boxes| ==> |boxes[n]| == mod)
    && forall n :: 0 <= n < mod - i ==> ScheduleMoves(mod, key, i + n, boxes[n], js[n], boxes[n + 1], js[n + 1])
  }

  /** The index moves on by the number at place i and by a byte of the key, and the numbers at
      both places are exchanged. */
  ghost predicate ScheduleMoves(mod: nat, key: seq<Byte>, i: nat, box: seq<int>, j: int, next: seq<int>, moved: int)
    requires key != [] && i < mod == |box|
  {
    moved == (j + box[i] + key[i % |key|]) % mod && Exchanged(box, next, i, moved)
  }

  lemma {:induction false} MixTrace(box: seq<int>, key: seq<Byte>, i: nat, j: int)
    returns (boxes: seq<seq<int>>, js: seq<int>)
    requires key != [] && i <= |box| && |box| > 0 && j >= 0 && IsPermutation(box, |box|)
    ensures ScheduleTrace(|box|, key, i, boxes, js) && boxes[0] == box && js[0] == j
    ensures Mix(box, key, i, j) == boxes[|box| - i]
    decreases |box| - i
  {
    hide IsPermutation, Mix, Swap;
    if i == |box| {
      MixDone(box, key, j);
      boxes, js := [box], [j];
    } else {
      var next := (j + box[i] + key[i % |key|]) % |box|;
      MixStep(box, key, i, j);
      boxes, js := MixTrace(Swap(box, i, next), key, i + 1, next);
      TracePrepended(box, key, i, j, boxes, js);
      boxes, js := [box] + boxes, [j] + js;
    }
  }

  lemma TracePrepended(box: seq<int>, key: seq<Byte>, i: nat, j: int, boxes: seq<seq<int>>, js: seq<int>)
    requires key != [] && i < |box| && ScheduleTrace(|box|, key, i + 1, boxes, js) && 0 <= js[0] < |box|
    requires js[0] == (j + box[i] + key[i % |key|]) % |box| && boxes[0] == Swap(box, i, js[0])
    ensures ScheduleTrace(|box|, key, i, [box] + boxes, [j] + js)
  {
    hide Swap, ScheduleMoves;
    var bs, hs := [box] + boxes, [j] + js;
    MovesFirst(box, key, i, j, js[0]);
    forall n | 0 <= n < |box| - i
      ensures ScheduleMoves(|box|, key, i + n, bs[n], hs[n], bs[n + 1], hs[n + 1])
    {
      if n > 0 {
        assert bs[n] == boxes[n - 1] && bs[n + 1] == boxes[n] && hs[n] == js[n - 1] && hs[n + 1] == js[n];
      }
    }
  }

  lemma MovesFirst(box: seq<int>, key: seq<Byte>, i: nat, j: int, moved: int)
    requires key != [] && i < |box| && moved == (j + box[i] + key[i % |key|]) % |box|
    ensures ScheduleMoves(|box|, key, i, box, j, Swap(box, i, moved), moved)
  {
    hide Swap;
    SwapExchanges(box, i, moved);
  }

  lemma SwapExchanges(box: seq<int>, i: nat, j: nat)
    requires i < |box| && j < |box|
    ensures Exchanged(box, Swap(box, i, j), i, j)
  {
  }

  /** The key schedule starts with the numbers in order and makes one exchange for each place. */
  lemma ScheduleIs(mod: nat, key: seq<Byte>) returns (boxes: seq<seq<int>>, js: seq<int>)
    requires 0 < mod < 256 && key != []
    ensures ScheduleTrace(mod, key, 0, boxes, js) && js[0] == 0
    ensures forall k :: 0 <= k < mod ==> boxes[0][k] == k
    ensures Start(mod, key).box == boxes[mod] && Start(mod, key).high == 0
  {
    boxes, js := MixTrace(Identity(mod), key, 0, 0);
  }

  /** The boxes, indexes and bytes of a stream from byte i on. */
  ghost predicate StreamTrace(mod: nat, i: nat, boxes: seq<seq<int>>, highs: seq<int>, bytes: seq<Byte>)
    requires 0 < mod
  {
    && |boxes| == |highs| == |bytes| + 1
    && (forall n :: 0 <= n < |boxes| ==> |boxes[n]| == mod)
    && forall n :: 0 <= n < |bytes| ==>
         StreamMoves(mod, i + n, boxes[n], highs[n], boxes[n + 1], highs[n + 1], bytes[n])
  }

  /** The index moves on by the number at the place of byte i, that number and the first are
      exchanged, and their sum is the place of the byte of the stream. */
  ghost predicate StreamMoves(mod: nat, i: nat, box: seq<int>, high: int, next: seq<int>, moved: int, k: Byte)
    requires 0 < mod == |box| == |next|
  {
    && moved == (high + box[i % mod]) % mod
    && Exchanged(box, next, 0, moved)
    && k == next[(next[0] + next[moved]) % mod]
  }

  lemma {:induction false} StreamIs(g: Generator, i: nat, n: nat, mod: nat)
    returns (boxes: seq<seq<int>>, highs: seq<int>)
    requires Sound(g, mod)
    ensures StreamTrace(mod, i, boxes, highs, Stream(g, i, n, mod)) && boxes[0] == g.box && highs[0] == g.high
    decreases n
  {
    hide IsPermutation, Sound, Stream;
    StepInRange(g, i, mod);
    StepKeepsSound(g, i, mod);
    if n == 0 {
      EmptyStream(g, i, mod);
      boxes, highs := [g.box], [g.high];
    } else {
      var next := Step(g, i, mod).0;
      StreamStep(g, i, n, mod);
      boxes, highs := StreamIs(next, i + 1, n - 1, mod);
      var bytes := Stream(next, i + 1, n - 1, mod);
      StreamPrepended(g, i, mod, boxes, highs, bytes);
      boxes, highs := [g.box] + boxes, [g.high] + highs;
    }
  }

  lemma StepKeepsSound(g: Generator, i: nat, mod: nat)
    requires Sound(g, mod)
    ensures 0 < mod && Sound(Step(g, i, mod).0, mod)
  {
  }

  lemma EmptyStream(g: Generator, i: nat, mod: nat)
    requires Sound(g, mod)
    ensures Stream(g, i, 0, mod) == []
  {
  }

  lemma StreamPrepended(g: Generator, i: nat, mod: nat, boxes: seq<seq<int>>, highs: seq<int>, bytes: seq<Byte>)
    requires Sound(g, mod) && StreamTrace(mod, i + 1, boxes, highs, bytes)
    requires boxes[0] == Step(g, i, mod).0.box && highs[0] == Step(g, i, mod).0.high
    ensures StreamTrace(mod, i, [g.box] + boxes, [g.high] + highs, [Step(g, i, mod).1] + bytes)
  {
    hide Step, StreamMoves, Sound;
    var bs, hs, ks := [g.box] + boxes, [g.high] + highs, [Step(g, i, mod).1] + bytes;
    StepIs(g, i, mod);
    forall n | 0 <= n < |ks| ensures StreamMoves(mod, i + n, bs[n], hs[n], bs[n + 1], hs[n + 1], ks[n]) {
      if n > 0 {
        assert bs[n] == boxes[n - 1] && bs[n + 1] == boxes[n] && hs[n] == highs[n - 1] && hs[n + 1] == highs[n];
        assert ks[n] == bytes[n - 1] && i + n == i + 1 + (n - 1);
      }
    }
  }

  lemma StepIs(g: Generator, i: nat, mod: nat)
    requires Sound(g, mod)
    ensures |g.box| == mod
    ensures var (next, k) := Step(g, i, mod);
            && |next.box| == mod && StreamMoves(mod, i, g.box, g.high, next.box, next.high, k)
  {
    hide Swap, IsPermutation;
    StepInRange(g, i, mod);
    SwapExchanges(g.box, 0, (g.high + g.box[i % mod]) % mod);
  }

  /** Bit j of a number. */
  ghost function Bit(a: nat, j: nat): nat {
    if j == 0 then a % 2 else Bit(a / 2, j - 1)
  }

  lemma {:induction false} XorBitwise(a: nat, b: nat, n: nat, j: nat)
    requires j < n
    ensures Bit(XorBits(a, b, n), j) == if Bit(a, j) == Bit(b, j) then 0 else 1
    decreases n
  {
    if j > 0 {
      XorBitwise(a / 2, b / 2, n - 1, j - 1);
      LowBit(BitXor(a % 2, b % 2), XorBits(a / 2, b / 2, n - 1));
    }
  }

  lemma TruncateShift(a: int, q: int)
    ensures (a - 256 * q) % 256 == a % 256
  {
    TruncateIs(a / 256 - q, a % 256);
    assert a - 256 * q == 256 * (a / 256 - q) + a % 256;
  }

  /** Each byte of the result: exclusive or with the byte of the stream, bit by bit, and the
      subtrahend, in eight bits; and the other way round. */
  lemma CryptIsBytewise(mod: nat, key: seq<Byte>, data: seq<Byte>, subtract: int, encrypt: bool, i: nat)
    requires 0 < mod < 256 && key != [] && i < |data|
    ensures var k, r := Stream(Start(mod, key), 0, |data|, mod)[i], Crypt(mod, key, data, subtract, encrypt)[i];
            if encrypt then r == (Xor(data[i], k) - subtract) % 256
            else r == Xor((data[i] + subtract) % 256, k)
  {
    hide *;
    CryptIs(mod, key, data, subtract, encrypt);
    CombineIs(data[i], Stream(Start(mod, key), 0, |data|, mod)[i], subtract, encrypt);
  }

  lemma CombineIs(d: Byte, k: Byte, subtract: int, encrypt: bool)
    ensures Combine(d, k, subtract, encrypt) ==
            if encrypt then (Xor(d, k) - subtract) % 256 else Xor((d + subtract) % 256, k)
  {
    hide Xor;
    var n := if encrypt then subtract else -subtract;
    TruncateShift((if encrypt then Xor(d, k) else d) - n % 256, n / 256);
    assert n == 256 * (n / 256) + n % 256;
  }

  /** Two equal bytes under the key 1 with three numbers in the box. */
  lemma CryptExample()
    ensures Crypt(3, [1], [65, 65], 0, true) == [65, 67]
  {
    hide Stream, Start, Combine;
    ScheduleExample();
    StreamExample();
    CombineExample();
    CryptIs(3, [1], [65, 65], 0, true);
  }

  lemma ScheduleExample()
    ensures Start(3, [1]) == Generator([0, 2, 1], 0)
  {
    hide IsPermutation, Mix;
    assert Identity(3) == [0, 1, 2];
    MixStep(Identity(3), [1], 0, 0);
    assert Swap(Identity(3), 0, 1) == [1, 0, 2];
    MixStep([1, 0, 2], [1], 1, 1);
    assert Swap([1, 0, 2], 1, 2) == [1, 2, 0];
    MixStep([1, 2, 0], [1], 2, 2);
    assert Swap([1, 2, 0], 2, 0) == [0, 2, 1];
    MixDone([0, 2, 1], [1], 0);
  }

  lemma StreamExample()
    ensures Sound(Generator([0, 2, 1], 0), 3) && Stream(Generator([0, 2, 1], 0), 0, 2, 3) == [0, 2]
  {
    hide Stream;
    var g, h := Generator([0, 2, 1], 0), Generator([1, 2, 0], 2);
    assert Swap([0, 2, 1], 0, 0) == [0, 2, 1] && Swap([0, 2, 1], 0, 2) == [1, 2, 0];
    assert Sound(g, 3) && Step(g, 0, 3) == (g, 0);
    assert Step(g, 1, 3) == (h, 2);
    StreamStep(g, 0, 2, 3);
    StreamStep(g, 1, 1, 3);
    EmptyStream(h, 2, 3);
  }

  lemma CombineExample()
    ensures Combine(65, 0, 0, true) == 65 && Combine(65, 2, 0, true) == 67
  {
    assert XorBits(0, 0, 1) == 0 && XorBits(1, 0, 2) == 1 && XorBits(2, 0, 3) == 2 && XorBits(4, 0, 4) == 4;
    assert XorBits(8, 0, 5) == 8 && XorBits(16, 0, 6) == 16 && XorBits(32, 0, 7) == 32 && XorBits(32, 1, 7) == 33;
  }

  // ---------------------------------------------------------------- in place

  method SwapEntries(box: array<int>, ghost n: nat, i: nat, j: nat)
    requires i < n <= box.Length && j < n
    modifies box
    ensures box[..n] == Swap(old(box[..n]), i, j)
  {
    box[i], box[j] := box[j], box[i];
  }

  /** rc4_sbox */
  method FillBox(mod: nat, box: array<int>, key: seq<Byte>)
    requires 0 < mod <= box.Length && mod < 256 && key != []
    modifies box
    ensures box[..mod] == Start(mod, key).box
  {
    for i := 0 to mod
      invariant forall k :: 0 <= k < i ==> box[k] == k
    {
      box[i] := i;
    }
    assert box[..mod] == Identity(mod);
    MixBox(mod, box, key);
  }

  /** The second loop of rc4_sbox. */
  method MixBox(mod: nat, box: array<int>, key: seq<Byte>)
    requires 0 < mod <= box.Length && key != [] && IsPermutation(box[..mod], mod)
    modifies box
    ensures box[..mod] == Mix(old(box[..mod]), key, 0, 0)
  {
    hide IsPermutation, Mix;
    var j := 0;
    ghost var b := box[..mod];
    for i := 0 to mod
      invariant box[..mod] == b && IsPermutation(b, mod) && 0 <= j < mod
      invariant Mix(b, key, i, j) == Mix(old(box[..mod]), key, 0, 0)
    {
      EntryInRange(b, mod, i);
      MixStep(b, key, i, j);
      j := (j + box[i] + key[i % |key|]) % mod;
      SwapEntries(box, mod, i, j);
      b := Swap(b, i, j);
    }
    MixDone(b, key, j);
  }

  lemma MixStep(b: seq<int>, key: seq<Byte>, i: nat, j: int)
    requires key != [] && i < |b| && j >= 0 && IsPermutation(b, |b|)
    ensures var next := (j + b[i] + key[i % |key|]) % |b|;
            0 <= next < |b| && IsPermutation(Swap(b, i, next), |b|)
            && Mix(b, key, i, j) == Mix(Swap(b, i, next), key, i + 1, next)
  {
  }

  lemma MixDone(b: seq<int>, key: seq<Byte>, j: int)
    requires key != [] && j >= 0 && IsPermutation(b, |b|)
    ensures Mix(b, key, |b|, j) == b
  {
  }

  lemma EntryInRange(b: seq<int>, n: int, i: nat)
    requires IsPermutation(b, n) && i < n
    ensures |b| == n && 0 <= b[i] < n
  {
  }

  /** rc4_crypt: an empty key or no data leaves everything as it is. */
  method CryptInPlace(mod: nat, key: seq<Byte>, data: array<Byte>, datalen: int, subtract: int, encrypt: bool)
    requires datalen <= data.Length
    requires key != [] && datalen > 0 ==> 0 < mod < 256
    modifies data
    ensures key == [] || datalen <= 0 ==> data[..] == old(data[..])
    ensures key != [] && datalen > 0 ==>
              data[..] == Crypt(mod, key, old(data[..datalen]), subtract, encrypt) + old(data[datalen..])
  {
    if key == [] || datalen <= 0 {
      return;
    }
    var box := new int[255];
    FillBox(mod, box, key);
    CombineInPlace(mod, box, data, datalen, subtract, encrypt, Start(mod, key));
    CryptIs(mod, key, old(data[..datalen]), subtract, encrypt);
  }

  /** The loop of rc4_crypt. */
  method CombineInPlace(mod: nat, box: array<int>, data: array<Byte>, datalen: nat, subtract: int, encrypt: bool,
          ghost start: Generator)
    requires datalen <= data.Length && box as object != data as object
    requires mod <= box.Length && Sound(start, mod) && box[..mod] == start.box && start.high == 0
    modifies box, data
    ensures data[..] == CombineAll(old(data[..datalen]), Stream(start, 0, datalen, mod), subtract, encrypt)
                        + old(data[datalen..])
  {
    hide Combine, IsPermutation, Step, Sound, Stream, CombineAll;
    var high := 0;
    ghost var plain, stream, g := data[..], Stream(start, 0, datalen, mod), start;
    for i := 0 to datalen
      invariant box[..mod] == g.box && high == g.high && Sound(g, mod)
      invariant stream[i..] == Stream(g, i, datalen - i, mod)
      invariant forall k :: 0 <= k < i ==> data[k] == Combine(plain[k], stream[k], subtract, encrypt)
      invariant forall k :: i <= k < data.Length ==> data[k] == plain[k]
    {
      var k;
      StreamStep(g, i, datalen - i, mod);
      high, k := NextByte(box, mod, i, high, g);
      assert stream[i..][0] == stream[i] && stream[i..][1..] == stream[i + 1..];
      g := Step(g, i, mod).0;
      data[i] := Combine(data[i], k, subtract, encrypt);
    }
    Assembled(data[..], plain, stream, subtract, encrypt);
  }

  lemma Assembled(data: seq<Byte>, plain: seq<Byte>, stream: seq<Byte>, subtract: int, encrypt: bool)
    requires |stream| <= |data| == |plain|
    requires forall k :: 0 <= k < |stream| ==> data[k] == Combine(plain[k], stream[k], subtract, encrypt)
    requires forall k :: |stream| <= k < |data| ==> data[k] == plain[k]
    ensures data == CombineAll(plain[..|stream|], stream, subtract, encrypt) + plain[|stream|..]
  {
    hide Combine;
  }

  lemma CryptIs(mod: nat, key: seq<Byte>, data: seq<Byte>, subtract: int, encrypt: bool)
    requires 0 < mod < 256 && key != []
    ensures Crypt(mod, key, data, subtract, encrypt) ==
            CombineAll(data, Stream(Start(mod, key), 0, |data|, mod), subtract, encrypt)
  {
  }

  lemma StreamStep(g: Generator, i: nat, n: nat, mod: nat)
    requires Sound(g, mod) && n > 0
    ensures Stream(g, i, n, mod) == [Step(g, i, mod).1] + Stream(Step(g, i, mod).0, i + 1, n - 1, mod)
  {
  }

  /** The part of the loop of rc4_crypt that moves the box on. */
  method NextByte(box: array<int>, mod: nat, i: nat, before: int, ghost g: Generator) returns (high: int, k: Byte)
    requires mod <= box.Length && Sound(g, mod) && box[..mod] == g.box && before == g.high
    modifies box
    ensures box[..mod] == Step(g, i, mod).0.box && high == Step(g, i, mod).0.high && k == Step(g, i, mod).1
    ensures Sound(Step(g, i, mod).0, mod)
  {
    hide IsPermutation;
    StepInRange(g, i, mod);
    var low := 0;
    low := low % mod;
    assert low == 0;
    high := (before + box[i % mod]) % mod;
    SwapEntries(box, mod, low, high);
    var mid := (box[low] + box[high]) % mod;
    k := box[mid];
  }

  lemma StepInRange(g: Generator, i: nat, mod: nat)
    requires Sound(g, mod)
    ensures |g.box| == mod && 0 <= g.box[i % mod] < mod
    ensures var (next, k) := Step(g, i, mod);
            && |next.box| == mod && 0 <= next.box[0] < mod && 0 <= k < mod
            && 0 <= next.high < mod && 0 <= next.box[next.high] < mod
  {
  }

  /** Encrypting and then decrypting in place restores the data. */
  method EncryptThenDecrypt(mod: nat, key: seq<Byte>, data: array<Byte>, subtract: int)
    requires 0 < mod < 256
    modifies data
    ensures data[..] == old(data[..])
  {
    ghost var plain := data[..];
    CryptInPlace(mod, key, data, data.Length, subtract, true);
    assert plain[..data.Length] == plain && plain[data.Length..] == [];
    ghost var secret := data[..];
    CryptInPlace(mod, key, data, data.Length, subtract, false);
    assert secret[..data.Length] == secret && secret[data.Length..] == [];
    if key != [] {
      CryptUndone(mod, key, plain, subtract, true);
    }
  }
}
