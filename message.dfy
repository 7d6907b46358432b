/** Message-length selection (the `MASK` macro) and random message generation (`rand_string`). */
module Message {
  import opened Config
  import opened Bits

  /** Length bounds for which the length macro yields a usable buffer size. */
  predicate ValidBounds(minLen: int, maxLen: int)
  {
    0 <= minLen <= maxLen && 1 <= maxLen
  }

  /**
   * The `MASK` macro, with all three preprocessor branches: a constant when the
   * bounds coincide, a bit mask or a plain remainder when the lower bound is 0,
   * and a shifted remainder otherwise. `num` is a value returned by `rand()`.
   */
  function Mask(minLen: int, maxLen: int, num: nat): (r: int)
    requires ValidBounds(minLen, maxLen)
    ensures 0 <= r < maxLen
    ensures minLen < maxLen ==> minLen <= r
    ensures minLen == maxLen ==> r == maxLen - 1
  {
    if maxLen == minLen then maxLen - 1
    else if minLen == 0 then
      if BitAnd(maxLen, maxLen - 1) == 0 then BitAnd(num, maxLen - 1) else num % maxLen
    else num % (maxLen - minLen) + minLen
  }

  /** In the lower-bound-0 branch both variants of the macro compute `num % maxLen`. */
  lemma MaskZeroMinIsMod(maxLen: int, num: nat)
    requires maxLen >= 1
    ensures Mask(0, maxLen, num) == num % maxLen
  {
    if BitAnd(maxLen, maxLen - 1) == 0 {
      PowerOfTwoTest(maxLen);
      BitAndLowMask(num, maxLen);
    }
  }

  /** Every length of the range `[minLen, maxLen)` is produced by some random value. */
  lemma MaskCovers(minLen: int, maxLen: int, len: int)
    requires ValidBounds(minLen, maxLen) && minLen <= len < maxLen
    ensures Mask(minLen, maxLen, len - minLen) == len
  {
    if minLen == 0 {
      MaskZeroMinIsMod(maxLen, len);
      DivModUnique(len, maxLen, 0, len);
    } else {
      DivModUnique(len - minLen, maxLen - minLen, 0, len - minLen);
    }
  }

  /** The length `rand_string` picks under the configured bounds 16 and 32. */
  function MessageLength(num: nat): (r: int)
    ensures MinMsgLen <= r < MaxMsgLen
  {
    Mask(MinMsgLen, MaxMsgLen, num)
  }

  /** `strlen`: the index of the first NUL byte. */
  function Strlen(s: seq<Byte>): (n: nat)
    requires 0 in s
    ensures n < |s| && s[n] == 0
    ensures forall i :: 0 <= i < n ==> s[i] != 0
  {
    if s[0] == 0 then 0 else 1 + Strlen(s[1..])
  }

  /** A lower-case ASCII letter, 'a' (97) to 'z' (122). */
  predicate IsLower(b: Byte)
  {
    97 <= b <= 122
  }

  /**
   * The buffer `rand_string` returns when the successive `rand()` calls, starting
   * with call number `pos`, return `rand(pos)`, `rand(pos + 1)`, ...: the first
   * call picks the length r, the next r calls pick the letters, and the
   * zero-filled allocation leaves the final byte NUL.
   */
  function RandMessage(rand: nat -> nat, pos: nat): seq<Byte>
  {
    var r := MessageLength(rand(pos));
    seq(r + 1, (i: int) requires 0 <= i <= r => if i < r then 97 + rand(pos + 1 + i) % 26 else 0)
  }

  /** A message as the workers receive it: NUL-terminated lower-case letters of an allowed length. */
  predicate WellFormedMessage(s: seq<Byte>)
  {
    && 0 in s
    && |s| == Strlen(s) + 1
    && MinMsgLen <= Strlen(s) < MaxMsgLen
    && forall i :: 0 <= i < Strlen(s) ==> IsLower(s[i])
  }

  /** A buffer of `r + 1` bytes: `r` letters, then NUL; so its string length is exactly `r`. */
  lemma RandMessageShape(rand: nat -> nat, pos: nat)
    ensures var s, r := RandMessage(rand, pos), MessageLength(rand(pos));
      && |s| == r + 1 && s[r] == 0
      && (forall i :: 0 <= i < r ==> IsLower(s[i]))
      && 0 in s && Strlen(s) == r
      && WellFormedMessage(s)
  {
  }

  /** `rand_string`: allocate `r + 1` zeroed bytes and fill the first `r` with letters. */
  method RandString(rand: nat -> nat, pos: nat) returns (str: array<Byte>, next: nat)
    ensures fresh(str)
    ensures str[..] == RandMessage(rand, pos)
    ensures next == pos + str.Length
  {
    var r := MessageLength(rand(pos));
    str := new Byte[r + 1](_ => 0);
    for i := 0 to r
      invariant forall j :: 0 <= j < i ==> str[j] == 97 + rand(pos + 1 + j) % 26
      invariant forall j :: i <= j <= r ==> str[j] == 0
    {
      str[i] := 97 + rand(pos + 1 + i) % 26;
    }
    next := pos + 1 + r;
  }

  /**
   * The message part of `create_worker`: one `rand_string` per worker, each
   * consuming the random values that follow those of the previous one.
   */
  method CreateWorkers(rand: nat -> nat, pos: nat, qty: nat)
      returns (msgs: seq<seq<Byte>>, next: nat, ghost starts: seq<nat>)
    ensures |msgs| == qty && |starts| == qty
    ensures forall k :: 0 <= k < qty ==> WellFormedMessage(msgs[k])
    ensures forall k :: 0 <= k < qty ==> msgs[k] == RandMessage(rand, starts[k])
    ensures qty > 0 ==> starts[0] == pos
    ensures forall k :: 0 <= k < qty - 1 ==> starts[k + 1] == starts[k] + |msgs[k]|
    ensures next == if qty == 0 then pos else starts[qty - 1] + |msgs[qty - 1]|
  {
    msgs, next, starts := [], pos, [];
    for i := 0 to qty
      invariant |msgs| == i && |starts| == i
      invariant forall k :: 0 <= k < i ==> msgs[k] == RandMessage(rand, starts[k])
      invariant i > 0 ==> starts[0] == pos
      invariant forall k :: 0 <= k < i - 1 ==> starts[k + 1] == starts[k] + |msgs[k]|
      invariant next == if i == 0 then pos else starts[i - 1] + |msgs[i - 1]|
    {
      var str, after := RandString(rand, next);
      msgs, starts := msgs + [str[..]], starts + [next];
      next := after;
    }
    forall k | 0 <= k < qty
      ensures WellFormedMessage(msgs[k])
    {
      RandMessageShape(rand, starts[k]);
    }
  }
}
