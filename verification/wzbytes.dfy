/** The primitive codec of the game's network protocol (wznet/wzbytes.go):
    the protocol's own variable-length unsigned 32-bit integer, the signed
    mapping built on it, fixed-width big-endian reads and raw byte blocks.

    The input is a byte sequence with a cursor (class `Reader`).  Every read
    has a pure specification on the bytes that remain, giving the value and
    the number of bytes consumed, or the error.  A failing read always leaves
    the reader exhausted: the in-memory readers the program uses hand out
    whatever is left before they report the end of the input. */
module WzBytes {
  import opened Wrappers

  type byte = x: int | 0 <= x < 0x100
  type u16 = x: int | 0 <= x < 0x1_0000
  type u32 = x: int | 0 <= x < 0x1_0000_0000
  type i32 = x: int | -0x8000_0000 <= x < 0x8000_0000

  const TWO32: nat := 0x1_0000_0000

  /** `table_uint32_t_a`: how many byte values at each position continue the number. */
  const TableA: seq<u32> := [78, 95, 32, 70, 0]
  /** `table_uint32_t_m`: the weight of a digit at each position. */
  const TableM: seq<u32> := [1, 78, 7410, 237120, 16598400]

  /** Largest accumulator possible after `n` continuation bytes (255 times the sum of the first n weights). */
  const PartialCap: seq<nat> := [0, 255, 20145, 1909695, 62375295, 4294967295]
  /** Largest value (in units of `TableM[n]`) that bytes from position `n` on can still add. */
  const Cap: seq<nat> := [4294967295, 55063680, 579615, 18105, 255]

  /** Adds `k` to the byte count of a successful read. */
  function Shift<T>(r: Result<(T, nat)>, k: nat): (r': Result<(T, nat)>)
    ensures r'.Ok? <==> r.Ok?
    ensures r.Ok? ==> r'.value == (r.value.0, r.value.1 + k)
    ensures r.Err? ==> r' == r
  {
    match r
    case Ok(vk) => Ok((vk.0, vk.1 + k))
    case Err(e) => Err(e)
  }

  // ---------------------------------------------------------------------
  // The variable-length unsigned integer
  // ---------------------------------------------------------------------

  /** `w * TableM[n]`, spelled out with the literal weights so that the
      proofs below stay linear (lemma UnitsProduct). */
  function Units(w: nat, n: nat): nat
    requires n < |TableA|
  {
    if n == 0 then w
    else if n == 1 then 78 * w
    else if n == 2 then 7410 * w
    else if n == 3 then 237120 * w
    else 16598400 * w
  }

  lemma UnitsProduct(w: nat, n: nat)
    requires n < |TableA|
    ensures Units(w, n) == w * TableM[n]
  {
  }

  /** Each weight is the one before times the number of continuation values
      at the position before, and a digit of 255 at every position adds up
      to exactly 2^32 - 1: the decoded value always fits a uint32. */
  lemma WeightsChain()
    ensures forall n :: 0 <= n < 4 ==> TableM[n + 1] == TableM[n] * TableA[n]
    ensures 255 * (TableM[0] + TableM[1] + TableM[2] + TableM[3] + TableM[4]) == TWO32 - 1
    ensures PartialCap[5] == TWO32 - 1
  {
  }

  /** x / TableA[n] and x % TableA[n] for a position that can continue. */
  function Quot(x: nat, n: nat): nat
    requires n < 4
  {
    if n == 0 then x / 78 else if n == 1 then x / 95 else if n == 2 then x / 32 else x / 70
  }

  function Rem(x: nat, n: nat): nat
    requires n < 4
  {
    if n == 0 then x % 78 else if n == 1 then x % 95 else if n == 2 then x % 32 else x % 70
  }

  /** The weight (in units of `TableM[n]`) of continuation digit `d` followed by `w'` units of `TableM[n+1]`. */
  function Join(d: nat, w': nat, n: nat): nat
    requires n < 4
  {
    if n == 0 then d + 78 * w' else if n == 1 then d + 95 * w' else if n == 2 then d + 32 * w' else d + 70 * w'
  }

  /** Go's uint32 wrap-around of a sum of two values below 2^32 (lemma Wrap32Mod). */
  function Wrap32(x: nat): (r: u32)
    requires x < 2 * TWO32
    ensures x < TWO32 ==> r == x
  {
    if x < TWO32 then x else x - TWO32
  }

  /** Wrap32 is reduction modulo 2^32. */
  lemma Wrap32Mod(x: nat)
    requires x < 2 * TWO32
    ensures Wrap32(x) == x % TWO32
  {
  }

  /** No digit is worth 2^32 or more. */
  lemma UnitsBelow(d: nat, n: nat)
    requires n < |TableA| && d <= 255
    ensures Units(d, n) < TWO32
  {
  }

  /** The digit byte `b` stands for at position `n`: a final byte is its own
      digit, a continuation byte `b` stands for 256 - a + 255 - b. */
  function Digit(b: byte, n: nat): (d: nat)
    requires n < |TableA|
    ensures d <= 255
    ensures d < 256 - TableA[n] <==> b < 256 - TableA[n]
  {
    if b < 256 - TableA[n] then b else 256 - TableA[n] + 255 - b
  }

  /** Decode_uint32_t: folds byte `b`, read at position `n`, into the uint32
      accumulator `v` (with the wrap-around of Go's uint32 arithmetic) and
      reports whether `b` ends the number. */
  function DecodeStep(b: byte, v: u32, n: nat): (r: (bool, u32))
    requires n < |TableA|
    ensures r.0 <==> b < 256 - TableA[n]
    ensures n == 4 ==> r.0
  {
    var a := TableA[n];
    UnitsBelow(if b < 256 - a then b else 256 - a + 255 - b, n);
    var isLastByte := b < 256 - a;
    if isLastByte then
      (true, Wrap32(v + Units(b, n)))
    else
      (false, Wrap32(v + Units(256 - a + 255 - b, n)))
  }

  /** Without wrap-around, a step adds the digit's weight to the accumulator. */
  lemma StepValue(b: byte, v: u32, n: nat)
    requires n < |TableA| && v + Units(Digit(b, n), n) < TWO32
    ensures DecodeStep(b, v, n).1 == v + Units(Digit(b, n), n)
  {
  }

  /** The loop of NETreadU32 from position `n` with accumulator `acc`, on the
      bytes `s`: the value and how many bytes of `s` it took. */
  function VarintFrom(s: seq<byte>, n: nat, acc: u32): (r: Result<(u32, nat)>)
    requires n < |TableA|
    ensures r.Ok? ==> 1 <= r.value.1 <= |TableA| - n && r.value.1 <= |s|
    ensures r.Err? ==> r.error == EOF && |s| < |TableA| - n
    decreases |TableA| - n
  {
    if |s| == 0 then Err(EOF)
    else
      var step := DecodeStep(s[0], acc, n);
      if step.0 then Ok((step.1, 1))
      else Shift(VarintFrom(s[1..], n + 1, step.1), 1)
  }

  /** NETreadU32 on the bytes `s`. */
  function VarintAt(s: seq<byte>): (r: Result<(u32, nat)>)
    ensures r.Ok? ==> 1 <= r.value.1 <= 5 && r.value.1 <= |s|
    ensures r.Err? ==> r.error == EOF && |s| < 5
  {
    VarintFrom(s, 0, 0)
  }

  /** The canonical encoding, from position `n`, of `w` units of `TableM[n]`:
      one final byte when `w` is small enough, else the continuation byte
      for the lowest digit followed by the encoding of the rest. */
  function EncodeFrom(w: nat, n: nat): (r: seq<byte>)
    requires n < |TableA| && w <= Cap[n]
    ensures 1 <= |r| <= |TableA| - n
    decreases |TableA| - n
  {
    if w < 256 - TableA[n] then [w]
    else
      SplitDigit(w, n);
      var x := w - (256 - TableA[n]);
      [255 - Rem(x, n)] + EncodeFrom(Quot(x, n), n + 1)
  }

  /** An encoder for the variable-length integer, written for this model (the
      program only decodes): 1 to 5 bytes for every uint32. */
  function EncodeVarint(v: u32): (r: seq<byte>)
    ensures 1 <= |r| <= 5
  {
    EncodeFrom(v, 0)
  }

  lemma SplitDigit(w: nat, n: nat)
    requires n < |TableA| && 256 - TableA[n] <= w <= Cap[n]
    ensures n < 4
    ensures Rem(w - (256 - TableA[n]), n) < TableA[n]
    ensures Quot(w - (256 - TableA[n]), n) <= Cap[n + 1]
    ensures w == Join(256 - TableA[n] + Rem(w - (256 - TableA[n]), n), Quot(w - (256 - TableA[n]), n), n)
  {
  }

  lemma JoinDigit(d: nat, w': nat, n: nat)
    requires n < 4 && 256 - TableA[n] <= d <= 255 && w' <= Cap[n + 1]
    ensures 256 - TableA[n] <= Join(d, w', n) <= Cap[n]
    ensures Rem(Join(d, w', n) - (256 - TableA[n]), n) == d - (256 - TableA[n])
    ensures Quot(Join(d, w', n) - (256 - TableA[n]), n) == w'
  {
    if n == 0 {
      var x := 78 * w' + (d - 178);
      assert x / 78 == w' && x % 78 == d - 178;
    } else if n == 1 {
      var x := 95 * w' + (d - 161);
      assert x / 95 == w' && x % 95 == d - 161;
    } else if n == 2 {
      var x := 32 * w' + (d - 224);
      assert x / 32 == w' && x % 32 == d - 224;
    } else {
      var x := 70 * w' + (d - 186);
      assert x / 70 == w' && x % 70 == d - 186;
    }
  }

  /** The arithmetic of one continuation digit: the accumulator stays within
      its cap, and `d` units of `m[n]` plus `w'` units of `m[n+1]` are
      `Join(d, w', n)` units of `m[n]`. */
  lemma RadixStep(acc: nat, d: nat, w': nat, n: nat)
    requires n < 4 && acc <= PartialCap[n] && d <= 255
    ensures acc + Units(d, n) <= PartialCap[n + 1]
    ensures Units(d, n) + Units(w', n + 1) == Units(Join(d, w', n), n)
  {
  }

  /** A digit that ends the number keeps the total below 2^32. */
  lemma LastDigitFits(acc: nat, d: nat, n: nat)
    requires n < |TableA| && acc <= PartialCap[n] && d <= 255
    ensures acc + Units(d, n) < TWO32
  {
  }

  // The proofs below bind every computed argument (`n + 1`, the new
  // accumulator) to a variable before passing it on, and keep sequence
  // identities in small generic lemmas: the verifier then matches the facts
  // it is given instead of unfolding the decoder again.

  /** What VarintFrom does with a final byte. */
  lemma FinalStep(s: seq<byte>, n: nat, acc: u32)
    requires n < |TableA| && |s| > 0 && acc <= PartialCap[n] && s[0] < 256 - TableA[n]
    ensures s[0] <= Cap[n] && EncodeFrom(s[0], n) == s[..1]
    ensures acc + Units(s[0], n) < TWO32
    ensures VarintFrom(s, n, acc) == Ok((acc + Units(s[0], n), 1))
  {
    LastDigitFits(acc, s[0], n);
    StepValue(s[0], acc, n);
  }

  /** What VarintFrom does with a continuation byte whose digit is `d`. */
  lemma ContinuationStep(s: seq<byte>, rest: seq<byte>, n: nat, acc: u32, d: nat, n': nat, acc': u32)
    requires n < 4 && n' == n + 1 && |s| > 0 && rest == s[1..] && acc <= PartialCap[n]
    requires 256 - TableA[n] <= d <= 255 && s[0] == 256 - TableA[n] + 255 - d
    requires acc' == acc + Units(d, n)
    ensures acc' <= PartialCap[n']
    ensures VarintFrom(s, n, acc) == Shift(VarintFrom(rest, n', acc'), 1)
  {
    RadixStep(acc, d, 0, n);
    assert Digit(s[0], n) == d;
    StepValue(s[0], acc, n);
  }

  /** One continuation digit of the encoding: the encoding of `w` starts with
      the byte for digit `d` and goes on with the encoding of `w'`. */
  lemma ContinuationSplit(w: nat, n: nat) returns (d: nat, w': nat)
    requires n < |TableA| && 256 - TableA[n] <= w <= Cap[n]
    ensures n < 4 && 256 - TableA[n] <= d <= 255 && w' <= Cap[n + 1]
    ensures w == Join(d, w', n)
    ensures EncodeFrom(w, n) == [256 - TableA[n] + 255 - d] + EncodeFrom(w', n + 1)
  {
    SplitDigit(w, n);
    d := 256 - TableA[n] + Rem(w - (256 - TableA[n]), n);
    w' := Quot(w - (256 - TableA[n]), n);
  }

  /** The encoding of a joined weight starts with the byte of its digit. */
  lemma EncodeJoin(d: nat, w': nat, n: nat)
    requires n < 4 && 256 - TableA[n] <= d <= 255 && w' <= Cap[n + 1]
    ensures 256 - TableA[n] <= Join(d, w', n) <= Cap[n]
    ensures EncodeFrom(Join(d, w', n), n) == [256 - TableA[n] + 255 - d] + EncodeFrom(w', n + 1)
  {
    JoinDigit(d, w', n);
    var d2, w2 := ContinuationSplit(Join(d, w', n), n);
  }

  /** The final case of EncodeDecodeFrom. */
  lemma EncodeDecodeFinal(w: nat, n: nat, acc: u32, t: seq<byte>)
    requires n < |TableA| && w < 256 - TableA[n] && acc <= PartialCap[n]
    ensures w <= Cap[n] && acc + Units(w, n) < TWO32
    ensures VarintFrom(EncodeFrom(w, n) + t, n, acc) == Ok((acc + Units(w, n), |EncodeFrom(w, n)|))
  {
    var s := EncodeFrom(w, n) + t;
    assert s[0] == w;
    FinalStep(s, n, acc);
  }

  /** A continuation byte for digit `d` in front of bytes that decode from
      position `n + 1`: the decode from `n` reads one byte more. */
  lemma DecodeCons(e: seq<byte>, e': seq<byte>, t: seq<byte>, n: nat, acc: u32, d: nat,
                   n': nat, acc': u32, v: u32, k: nat)
    requires n < 4 && n' == n + 1 && 256 - TableA[n] <= d <= 255 && acc <= PartialCap[n]
    requires acc' == acc + Units(d, n) && e == [256 - TableA[n] + 255 - d] + e'
    requires VarintFrom(e' + t, n', acc') == Ok((v, k))
    ensures VarintFrom(e + t, n, acc) == Ok((v, k + 1))
  {
    var b := 256 - TableA[n] + 255 - d;
    var rest := e' + t;
    var s := [b] + rest;
    DropFirst(b, rest);
    ContinuationStep(s, rest, n, acc, d, n', acc');
    assert VarintFrom(s, n, acc) == Ok((v, k + 1));
    ConsAssoc(b, e', t);
  }

  lemma {:induction false} EncodeDecodeFrom(w: nat, n: nat, acc: u32, t: seq<byte>)
    requires n < |TableA| && w <= Cap[n] && acc <= PartialCap[n]
    ensures acc + Units(w, n) < TWO32
    ensures VarintFrom(EncodeFrom(w, n) + t, n, acc) == Ok((acc + Units(w, n), |EncodeFrom(w, n)|))
    decreases |TableA| - n
  {
    if w < 256 - TableA[n] {
      EncodeDecodeFinal(w, n, acc, t);
    } else {
      var d, w' := ContinuationSplit(w, n);
      RadixStep(acc, d, w', n);
      var n', acc' := n + 1, acc + Units(d, n);
      EncodeDecodeFrom(w', n', acc', t);
      var e, e' := EncodeFrom(w, n), EncodeFrom(w', n');
      var v, k := acc' + Units(w', n'), |e'|;
      DecodeCons(e, e', t, n, acc, d, n', acc', v, k);
      assert v == acc + Units(w, n) && k + 1 == |e|;
    }
  }

  /** The continuation case of DecodeCanonicalFrom, given the result for the rest. */
  lemma DecodeCanonicalCont(s: seq<byte>, n: nat, acc: u32, d: nat, w': nat, n': nat, acc': u32, k': nat)
    returns (w: nat)
    requires n < 4 && n' == n + 1 && |s| > 0 && acc <= PartialCap[n] && w' <= Cap[n']
    requires 256 - TableA[n] <= d <= 255 && s[0] == 256 - TableA[n] + 255 - d
    requires acc' == acc + Units(d, n)
    requires VarintFrom(s[1..], n', acc') == Ok((acc' + Units(w', n'), k'))
    requires s[1..][..k'] == EncodeFrom(w', n')
    ensures w <= Cap[n]
    ensures VarintFrom(s, n, acc) == Ok((acc + Units(w, n), k' + 1))
    ensures s[..k' + 1] == EncodeFrom(w, n)
  {
    w := Join(d, w', n);
    DecodeJoinValue(s, n, acc, d, w', n', acc', k');
    DecodeJoinBytes(s, n, d, w', n', k');
  }

  /** The value half of DecodeCanonicalCont. */
  lemma DecodeJoinValue(s: seq<byte>, n: nat, acc: u32, d: nat, w': nat, n': nat, acc': u32, k': nat)
    requires n < 4 && n' == n + 1 && |s| > 0 && acc <= PartialCap[n] && w' <= Cap[n']
    requires 256 - TableA[n] <= d <= 255 && s[0] == 256 - TableA[n] + 255 - d
    requires acc' == acc + Units(d, n)
    requires VarintFrom(s[1..], n', acc') == Ok((acc' + Units(w', n'), k'))
    ensures VarintFrom(s, n, acc) == Ok((acc + Units(Join(d, w', n), n), k' + 1))
  {
    ContinuationStep(s, s[1..], n, acc, d, n', acc');
    RadixStep(acc, d, w', n);
  }

  /** The encoding half of DecodeCanonicalCont. */
  lemma DecodeJoinBytes(s: seq<byte>, n: nat, d: nat, w': nat, n': nat, k': nat)
    requires n < 4 && n' == n + 1 && |s| > 0 && w' <= Cap[n']
    requires 256 - TableA[n] <= d <= 255 && s[0] == 256 - TableA[n] + 255 - d
    requires k' < |s| && s[1..][..k'] == EncodeFrom(w', n')
    ensures Join(d, w', n) <= Cap[n]
    ensures s[..k' + 1] == EncodeFrom(Join(d, w', n), n)
  {
    EncodeJoin(d, w', n);
    TakeCons(s, k');
  }

  lemma {:induction false} DecodeCanonicalFrom(s: seq<byte>, n: nat, acc: u32) returns (w: nat)
    requires n < |TableA| && acc <= PartialCap[n] && VarintFrom(s, n, acc).Ok?
    ensures w <= Cap[n]
    ensures VarintFrom(s, n, acc).value.0 == acc + Units(w, n)
    ensures s[..VarintFrom(s, n, acc).value.1] == EncodeFrom(w, n)
    decreases |TableA| - n
  {
    if s[0] < 256 - TableA[n] {
      FinalStep(s, n, acc);
      w := s[0];
    } else {
      var d := Digit(s[0], n);
      var n', acc' := n + 1, acc + Units(d, n);
      var rest := s[1..];
      ContinuationStep(s, rest, n, acc, d, n', acc');
      var w' := DecodeCanonicalFrom(rest, n', acc');
      var k' := VarintFrom(rest, n', acc').value.1;
      w := DecodeCanonicalCont(s, n, acc, d, w', n', acc', k');
    }
  }

  // Sequence identities used above.

  lemma TakeCons<T>(s: seq<T>, k: nat)
    requires k < |s|
    ensures s[..k + 1] == [s[0]] + s[1..][..k]
  {
  }

  lemma ConsAssoc<T>(b: T, x: seq<T>, t: seq<T>)
    ensures [b] + x + t == [b] + (x + t)
  {
  }

  lemma DropFirst<T>(b: T, x: seq<T>)
    ensures ([b] + x)[1..] == x
  {
  }

  lemma TakeAppendTail<T>(s: seq<T>, k: nat, t: seq<T>)
    requires 0 < k <= |s|
    ensures (s[..k] + t)[1..] == s[1..][..k - 1] + t
  {
  }

  lemma TakeTail<T>(s: seq<T>, j: nat)
    requires 0 < j <= |s|
    ensures s[..j][1..] == s[1..][..j - 1]
  {
  }

  /** Decoding the canonical encoding gives the value back, whatever follows it. */
  lemma VarintRoundTrip(v: u32, t: seq<byte>)
    ensures VarintAt(EncodeVarint(v) + t) == Ok((v, |EncodeVarint(v)|))
  {
    EncodeDecodeFrom(v, 0, 0, t);
  }

  /** Every successful decode read exactly the canonical encoding of its value:
      the code is a bijection between uint32 values and well-formed byte strings. */
  lemma VarintCanonical(s: seq<byte>)
    requires VarintAt(s).Ok?
    ensures s[..VarintAt(s).value.1] == EncodeVarint(VarintAt(s).value.0)
  {
    var r := VarintFrom(s, 0, 0);
    var w := DecodeCanonicalFrom(s, 0, 0);
    assert r.value.0 == w;
  }

  lemma {:induction false} VarintFromPrefix(s: seq<byte>, n: nat, acc: u32, t: seq<byte>, j: nat)
    requires n < |TableA| && VarintFrom(s, n, acc).Ok?
    ensures VarintFrom(s[..VarintFrom(s, n, acc).value.1] + t, n, acc) == VarintFrom(s, n, acc)
    ensures j < VarintFrom(s, n, acc).value.1 ==> VarintFrom(s[..j], n, acc).Err?
    decreases |TableA| - n
  {
    var k := VarintFrom(s, n, acc).value.1;
    var u := s[..k] + t;
    assert u[0] == s[0];
    var step := DecodeStep(s[0], acc, n);
    if !step.0 {
      TakeAppendTail(s, k, t);
      VarintFromPrefix(s[1..], n + 1, step.1, t, if j == 0 then 0 else j - 1);
      if 0 < j < k {
        TakeTail(s, j);
      }
    }
  }

  /** A decode only depends on the bytes it consumed: it gives the same
      answer when anything else follows them, and fails on every shorter prefix. */
  lemma VarintPrefix(s: seq<byte>, t: seq<byte>, j: nat)
    requires VarintAt(s).Ok?
    ensures VarintAt(s[..VarintAt(s).value.1] + t) == VarintAt(s)
    ensures j < VarintAt(s).value.1 ==> VarintAt(s[..j]).Err?
  {
    VarintFromPrefix(s, 0, 0, t, j);
  }

  /** One iteration of NETreadU32's loop, as VarintFrom sees it: byte `s[0]`
      at position `n`, after `k` bytes, gives `(last, acc')`. */
  lemma VarintFromStep(s: seq<byte>, s': seq<byte>, n: nat, n': nat, acc: u32, acc': u32, last: bool, k: nat, k': nat)
    requires n < |TableA| && |s| > 0 && s' == s[1..] && n' == n + 1 && k' == k + 1
    requires (last, acc') == DecodeStep(s[0], acc, n)
    ensures last ==> Shift(VarintFrom(s, n, acc), k) == Ok((acc', k'))
    ensures !last ==> n' < |TableA|
    ensures !last ==> Shift(VarintFrom(s, n, acc), k) == Shift(VarintFrom(s', n', acc'), k')
  {
    if !last {
      var r' := VarintFrom(s', n', acc');
      assert VarintFrom(s, n, acc) == Shift(r', 1);
      ShiftShift(r', 1, k);
    }
  }

  lemma ShiftShift<T>(r: Result<(T, nat)>, j: nat, k: nat)
    ensures Shift(Shift(r, j), k) == Shift(r, j + k)
  {
  }

  // ---------------------------------------------------------------------
  // The signed mapping of NETreadS32
  // ---------------------------------------------------------------------

  /** NETreadS32's mapping of a decoded uint32: even v to v/2, odd v to
      -(v/2 - 1).  This is not zig-zag decoding; the result always fits an int32. */
  function SignedFromU32(v: u32): (r: i32)
    ensures -0x7fff_fffe <= r
    ensures v % 2 == 0 ==> 2 * r == v
    ensures v % 2 == 1 ==> 2 * r == 3 - v
  {
    if v % 2 == 0 then v / 2 else -(v / 2 - 1)
  }

  /** The only two collisions of the mapping: 0 and 3 both give 0, 1 and 2 both give 1. */
  lemma SignedCollisions(x: u32, y: u32)
    ensures SignedFromU32(x) == SignedFromU32(y) <==>
            x == y || (x == 0 && y == 3) || (x == 3 && y == 0) || (x == 1 && y == 2) || (x == 2 && y == 1)
  {
    if SignedFromU32(x) == SignedFromU32(y) && x != y {
      if x % 2 == y % 2 {
        assert false;
      }
    }
  }

  /** Every int32 from -(2^31 - 2) to 2^31 - 1 is produced; -2^31 and -2^31 + 1 never are. */
  lemma SignedRange(r: i32)
    ensures (exists v: u32 :: SignedFromU32(v) == r) <==> r >= -0x7fff_fffe
  {
    if r >= 0 {
      assert SignedFromU32(2 * r) == r;
    } else if r >= -0x7fff_fffe {
      assert SignedFromU32(3 - 2 * r) == r;
    }
  }

  // ---------------------------------------------------------------------
  // Fixed-width reads and byte blocks
  // ---------------------------------------------------------------------

  function Zeros(k: nat): (z: seq<byte>)
    ensures |z| == k && forall i :: 0 <= i < k ==> z[i] == 0
  {
    seq(k, i => 0)
  }

  /** ReadBytes(n): nothing for n <= 0; otherwise one Read, which fails only
      when no byte is left and else copies what it can into n zero bytes. */
  function BytesAt(n: int, s: seq<byte>): (r: Result<(seq<byte>, nat)>)
    ensures r.Err? <==> n > 0 && |s| == 0
    ensures r.Err? ==> r.error == EOF
    ensures r.Ok? ==> |r.value.0| == (if n <= 0 then 0 else n)
    ensures r.Ok? && n > 0 ==> r.value.1 == (if n <= |s| then n else |s|)
    ensures r.Ok? && n <= 0 ==> r.value.1 == 0
    ensures r.Ok? && n > 0 && n <= |s| ==> r.value.0 == s[..n]
    ensures r.Ok? && n > |s| ==> r.value.0 == s + Zeros(n - |s|)
  {
    if n <= 0 then Ok(([], 0))
    else if |s| == 0 then Err(EOF)
    else
      var k := if n < |s| then n else |s|;
      Ok((s[..k] + Zeros(n - k), k))
  }

  /** The four bytes as a big-endian uint32 (binary.BigEndian.Uint32). */
  function BigEndian32(b: seq<byte>): (v: u32)
    requires |b| == 4
    ensures v / 0x100_0000 == b[0] && v % 0x100 == b[3]
  {
    (b[0] as int) * 0x100_0000 + (b[1] as int) * 0x1_0000 + (b[2] as int) * 0x100 + b[3]
  }

  /** Splitting the value back into four bytes, top byte first, gives the
      bytes it was read from: no two byte strings share a value. */
  lemma BigEndian32Bytes(b: seq<byte>)
    requires |b| == 4
    ensures var v := BigEndian32(b);
      [v / 0x100_0000, v / 0x1_0000 % 0x100, v / 0x100 % 0x100, v % 0x100] == b
  {
    var v := BigEndian32(b);
    var hi: int := (b[0] as int) * 0x100 + b[1];
    var mid: int := hi * 0x100 + b[2];
    QuotRemByte(v, mid, b[3] as int);
    QuotWord(v, hi, (b[2] as int) * 0x100 + b[3]);
    QuotRemByte(mid, hi, b[2] as int);
    QuotRemByte(hi, b[0] as int, b[1] as int);
  }

  /** Division by 0x100 with a remainder below 0x100 gives back the quotient and the remainder. */
  lemma QuotRemByte(x: int, q: int, r: int)
    requires 0 <= r < 0x100 && x == q * 0x100 + r
    ensures x / 0x100 == q && x % 0x100 == r
  {
  }

  /** Division by 0x1_0000 with a remainder below 0x1_0000 gives back the quotient. */
  lemma QuotWord(x: int, q: int, r: int)
    requires 0 <= r < 0x1_0000 && x == q * 0x1_0000 + r
    ensures x / 0x1_0000 == q
  {
  }

  lemma BigEndian32Injective(b: seq<byte>, c: seq<byte>)
    requires |b| == 4 && |c| == 4 && BigEndian32(b) == BigEndian32(c)
    ensures b == c
  {
    BigEndian32Bytes(b);
    BigEndian32Bytes(c);
  }

  /** ReadUBE32: ReadBytes(4), then the big-endian value; when ReadBytes
      fails it indexes an empty slice, which is a runtime panic. */
  function UBE32At(s: seq<byte>): (r: Result<(u32, nat)>)
    ensures r.Err? <==> |s| == 0
    ensures r.Err? ==> r.error == IndexOutOfRange
    ensures r.Ok? && |s| >= 4 ==> r.value == (BigEndian32(s[..4]), 4)
    ensures r.Ok? && |s| < 4 ==> r.value == (BigEndian32(s + Zeros(4 - |s|)), |s|)
    ensures r.Ok? && |s| < 4 ==> r.value.0 / 0x100_0000 == s[0] && r.value.0 % 0x100 == 0
  {
    match BytesAt(4, s)
    case Err(_) => Err(IndexOutOfRange)
    case Ok(bk) => Ok((BigEndian32(bk.0), bk.1))
  }

  /** NETreadU8: binary.Read of one byte. */
  function U8At(s: seq<byte>): (r: Result<(byte, nat)>)
    ensures r.Ok? <==> |s| >= 1
    ensures r.Ok? ==> r.value == (s[0], 1)
    ensures r.Err? ==> r.error == EOF
  {
    if |s| == 0 then Err(EOF) else Ok((s[0], 1))
  }

  /** NETreadU16: binary.Read of two bytes, big-endian (fixed width, not a varint). */
  function U16At(s: seq<byte>): (r: Result<(u16, nat)>)
    ensures r.Ok? <==> |s| >= 2
    ensures r.Ok? ==> r.value.1 == 2 && r.value.0 / 0x100 == s[0] && r.value.0 % 0x100 == s[1]
    ensures r.Err? ==> r.error == (if |s| == 0 then EOF else UnexpectedEOF)
  {
    if |s| == 0 then Err(EOF)
    else if |s| == 1 then Err(UnexpectedEOF)
    else Ok(((s[0] as int) * 0x100 + s[1], 2))
  }

  /** NETreadS32: NETreadU32 followed by the signed mapping. */
  function S32At(s: seq<byte>): (r: Result<(i32, nat)>)
    ensures r.Ok? <==> VarintAt(s).Ok?
    ensures r.Ok? ==> r.value == (SignedFromU32(VarintAt(s).value.0), VarintAt(s).value.1)
  {
    var vk :- VarintAt(s);
    Ok((SignedFromU32(vk.0), vk.1))
  }

  /** `count` big-endian 16-bit code units. */
  function U16sAt(count: nat, s: seq<byte>): (r: Result<(seq<u16>, nat)>)
    ensures r.Ok? <==> |s| >= 2 * count
    ensures r.Ok? ==> |r.value.0| == count && r.value.1 == 2 * count
    decreases count
  {
    if count == 0 then Ok(([], 0))
    else
      var h :- U16At(s);
      var t :- U16sAt(count - 1, s[2..]);
      Ok(([h.0] + t.0, 2 + t.1))
  }

  /** Puts `units` (already read) in front of the result of reading the rest. */
  ghost function Prepend(units: seq<u16>, r: Result<(seq<u16>, nat)>): Result<(seq<u16>, nat)>
  {
    match r
    case Ok(uk) => Ok((units + uk.0, 2 * |units| + uk.1))
    case Err(e) => Err(e)
  }

  /** One iteration of NETstring's loop, as U16sAt sees it. */
  lemma U16sStep(count: nat, s: seq<byte>)
    requires count > 0
    ensures |s| < 2 ==> U16sAt(count, s) == Err(U16At(s).error)
    ensures |s| >= 2 ==> U16sAt(count, s) == Prepend([U16At(s).value.0], U16sAt(count - 1, s[2..]))
  {
  }

  lemma PrependNothing(r: Result<(seq<u16>, nat)>)
    ensures Prepend([], r) == r
  {
    if r.Ok? {
      assert [] + r.value.0 == r.value.0;
    }
  }

  lemma PrependStep(units: seq<u16>, u: u16, r: Result<(seq<u16>, nat)>)
    ensures Prepend(units, Prepend([u], r)) == Prepend(units + [u], r)
  {
    if r.Ok? {
      assert units + ([u] + r.value.0) == units + [u] + r.value.0;
    }
  }

  /** One more code unit read by NETstring's loop. */
  lemma StringStepOk(whole: Result<(seq<u16>, nat)>, units: seq<u16>, u: u16, count: nat, rest: seq<byte>, rest': seq<byte>)
    requires count > 0 && |rest| >= 2 && rest' == rest[2..] && U16At(rest) == Ok((u, 2))
    requires whole == Prepend(units, U16sAt(count, rest))
    ensures whole == Prepend(units + [u], U16sAt(count - 1, rest'))
  {
    U16sStep(count, rest);
    PrependStep(units, u, U16sAt(count - 1, rest'));
  }

  /** NETstring's loop stopped by a failing code unit read. */
  lemma StringStepErr(whole: Result<(seq<u16>, nat)>, units: seq<u16>, count: nat, rest: seq<byte>)
    requires count > 0 && |rest| < 2
    requires whole == Prepend(units, U16sAt(count, rest))
    ensures whole == Err(U16At(rest).error)
  {
    U16sStep(count, rest);
  }

  /** StringAt in terms of the count and the code units after it. */
  lemma StringParts(s: seq<byte>, k: nat, count: nat, whole: Result<(seq<u16>, nat)>)
    requires VarintAt(s) == Ok((count, k)) && whole == U16sAt(count, s[k..])
    ensures whole.Ok? ==> StringAt(s) == Ok((whole.value.0, k + whole.value.1))
    ensures whole.Err? ==> StringAt(s) == Err(whole.error)
  {
  }

  /** NETstring: a varint count of 16-bit code units, then the units, big-endian. */
  function StringAt(s: seq<byte>): (r: Result<(seq<u16>, nat)>)
    ensures r.Ok? ==> VarintAt(s).Ok?
    ensures r.Ok? ==> |r.value.0| == VarintAt(s).value.0
    ensures r.Ok? ==> r.value.1 == VarintAt(s).value.1 + 2 * |r.value.0| <= |s|
  {
    var lk :- VarintAt(s);
    var us :- U16sAt(lk.0, s[lk.1..]);
    Ok((us.0, lk.1 + us.1))
  }

  // ---------------------------------------------------------------------
  // The reader
  // ---------------------------------------------------------------------

  /** An io.Reader over an in-memory byte sequence. */
  class Reader {
    const data: seq<byte>
    var pos: nat

    ghost predicate Valid()
      reads this
    {
      pos <= |data|
    }

    /** The bytes not yet read. */
    function Rest(): seq<byte>
      reads this
      requires Valid()
    {
      data[pos..]
    }

    /** The reader moved as the specification `spec` of a read from `oldPos` says:
        past the consumed bytes with the value, or to the end with the error. */
    ghost predicate Consumed<T>(spec: Result<(T, nat)>, res: Result<T>, oldPos: nat)
      reads this
    {
      match spec
      case Ok(vk) => res == Ok(vk.0) && pos == oldPos + vk.1
      case Err(e) => res == Err(e) && pos == |data|
    }

    constructor (input: seq<byte>)
      ensures Valid() && data == input && pos == 0
    {
      data := input;
      pos := 0;
    }

    /** ReadBytes(f, n). */
    method ReadBytes(n: int) returns (res: Result<seq<byte>>)
      requires Valid()
      modifies this
      ensures Valid()
      ensures Consumed(BytesAt(n, old(Rest())), res, old(pos))
    {
      if n <= 0 {
        return Ok([]);
      }
      if pos == |data| {
        return Err(EOF);
      }
      var r := if n < |data| - pos then n else |data| - pos;
      var b := data[pos..pos + r] + Zeros(n - r);
      assert data[pos..][..r] == data[pos..pos + r];
      pos := pos + r;
      res := Ok(b);
    }

    /** ReadByte(f): the byte, whether exactly one byte was read, and the error. */
    method ReadByte() returns (b: byte, ok: bool, err: Option<Error>)
      requires Valid()
      modifies this
      ensures Valid()
      ensures ok <==> err.None?
      ensures old(pos) == |data| ==> b == 0 && err == Some(EOF) && pos == old(pos)
      ensures old(pos) < |data| ==> b == data[old(pos)] && ok && pos == old(pos) + 1
    {
      if pos == |data| {
        return 0, false, Some(EOF);
      }
      b := data[pos];
      pos := pos + 1;
      return b, true, None;
    }

    /** ReadUBE32(f). */
    method ReadUBE32() returns (res: Result<u32>)
      requires Valid()
      modifies this
      ensures Valid()
      ensures Consumed(UBE32At(old(Rest())), res, old(pos))
    {
      var b := ReadBytes(4);
      if b.Err? {
        // binary.BigEndian.Uint32 indexes the empty slice ReadBytes returned
        return Err(IndexOutOfRange);
      }
      res := Ok(BigEndian32(b.value));
    }

    /** NETreadU8(r). */
    method NETreadU8() returns (res: Result<byte>)
      requires Valid()
      modifies this
      ensures Valid()
      ensures Consumed(U8At(old(Rest())), res, old(pos))
    {
      if pos == |data| {
        return Err(EOF);
      }
      res := Ok(data[pos]);
      pos := pos + 1;
    }

    /** NETreadU16(r). */
    method NETreadU16() returns (res: Result<u16>)
      requires Valid()
      modifies this
      ensures Valid()
      ensures Consumed(U16At(old(Rest())), res, old(pos))
    {
      if pos == |data| {
        return Err(EOF);
      }
      if pos + 1 == |data| {
        pos := |data|;
        return Err(UnexpectedEOF);
      }
      res := Ok((data[pos] as int) * 0x100 + data[pos + 1]);
      pos := pos + 2;
    }

    /** NETreadU32(r): reads bytes until Decode_uint32_t reports the last one. */
    method NETreadU32() returns (res: Result<u32>)
      requires Valid()
      modifies this
      ensures Valid()
      ensures Consumed(VarintAt(old(Rest())), res, old(pos))
    {
      ghost var s0 := Rest();
      ghost var p0 := pos;
      var ret: u32 := 0;
      var end := false;
      var n: nat := 0;
      while !end
        invariant Valid() && pos == p0 + n && n <= 5
        invariant !end ==> n < |TableA| && VarintAt(s0) == Shift(VarintFrom(data[pos..], n, ret), n)
        invariant end ==> VarintAt(s0) == Ok((ret, n))
        decreases 5 - n
      {
        if pos == |data| {
          return Err(EOF);
        }
        ghost var rest := data[pos..];
        var b := data[pos];
        var step := DecodeStep(b, ret, n);
        pos := pos + 1;
        ghost var rest' := data[pos..];
        assert rest' == rest[1..];
        VarintFromStep(rest, rest', n, n + 1, ret, step.1, step.0, n, n + 1);
        end, ret := step.0, step.1;
        n := n + 1;
      }
      res := Ok(ret);
    }

    /** NETreadS32(r). */
    method NETreadS32() returns (res: Result<i32>)
      requires Valid()
      modifies this
      ensures Valid()
      ensures Consumed(S32At(old(Rest())), res, old(pos))
    {
      var v := NETreadU32();
      if v.Err? {
        return Err(v.error);
      }
      res := Ok(SignedFromU32(v.value));
    }

    /** NETstring(r): the count, then the code units. */
    method NETstring() returns (res: Result<seq<u16>>)
      requires Valid()
      modifies this
      ensures Valid()
      ensures Consumed(StringAt(old(Rest())), res, old(pos))
    {
      ghost var s0 := Rest();
      ghost var p0 := pos;
      var l := NETreadU32();
      if l.Err? {
        return Err(l.error);
      }
      ghost var k := pos - p0;
      ghost var s1 := Rest();
      assert s0[k..] == s1;
      ghost var whole := U16sAt(l.value, s1);
      StringParts(s0, k, l.value, whole);
      res := ReadUnits(l.value);
    }

    /** The loop of NETstring: `count` big-endian code units, one NETreadU16 each. */
    method ReadUnits(count: nat) returns (res: Result<seq<u16>>)
      requires Valid()
      modifies this
      ensures Valid()
      ensures Consumed(U16sAt(count, old(Rest())), res, old(pos))
    {
      ghost var whole := U16sAt(count, Rest());
      ghost var p1 := pos;
      var units: seq<u16> := [];
      PrependNothing(whole);
      var left: nat := count;
      while left > 0
        invariant Valid() && pos == p1 + 2 * (count - left)
        invariant |units| == count - left
        invariant whole == Prepend(units, U16sAt(left, data[pos..]))
      {
        ghost var rest := data[pos..];
        var u := NETreadU16();
        if u.Err? {
          StringStepErr(whole, units, left, rest);
          return Err(u.error);
        }
        ghost var rest' := data[pos..];
        assert rest' == rest[2..];
        StringStepOk(whole, units, u.value, left, rest, rest');
        units := units + [u.value];
        left := left - 1;
      }
      assert units + [] == units;
      res := Ok(units);
    }
  }
}
