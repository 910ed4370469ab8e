/** `get.unsigned` and `get.signed`: the bytes read at an address folded into
    an integer, most significant byte first unless the byte order names
    little-endian, and the two's-complement reading of the same bytes. The
    bytes themselves and the database's default byte order are inputs. */
module Integers {
  import opened Common

  type Byte = x: int | 0 <= x < 0x100

  function Pow2(n: nat): (r: nat)
    ensures r >= 1
  {
    if n == 0 then 1 else 2 * Pow2(n - 1)
  }

  lemma {:induction false} Pow2Add(a: nat, b: nat)
    ensures Pow2(a + b) == Pow2(a) * Pow2(b)
    decreases a
  {
    if a > 0 {
      Pow2Add(a - 1, b);
    }
  }

  function Reverse<T>(s: seq<T>): (r: seq<T>)
    ensures |r| == |s|
    ensures forall i :: 0 <= i < |s| ==> r[i] == s[|s| - 1 - i]
  {
    if s == [] then [] else Reverse(s[1..]) + [s[0]]
  }

  /** `reduce(lambda x, y: x << 8 | y, data, 0)`: the bytes as a big-endian number. */
  function FoldBytes(data: seq<Byte>): (r: nat)
    ensures r < Pow2(8 * |data|)
  {
    if data == [] then 0
    else
      var prefix := data[..|data| - 1];
      var r := FoldBytes(prefix) * 0x100 + data[|data| - 1];
      Pow2Add(8 * |prefix|, 8);
      assert Pow2(8) == 0x100;
      r
  }

  /** The big-endian bytes of `x` in `n` bytes, the inverse of `FoldBytes`. */
  function ToBytes(x: nat, n: nat): (r: seq<Byte>)
    ensures |r| == n
  {
    if n == 0 then [] else ToBytes(x / 0x100, n - 1) + [x % 0x100]
  }

  lemma {:induction false} FoldToBytes(x: nat, n: nat)
    requires x < Pow2(8 * n)
    ensures FoldBytes(ToBytes(x, n)) == x
  {
    if n > 0 {
      Pow2Add(8 * (n - 1), 8);
      assert Pow2(8) == 0x100;
      FoldToBytes(x / 0x100, n - 1);
      assert ToBytes(x, n)[..n - 1] == ToBytes(x / 0x100, n - 1);
    }
  }

  lemma {:induction false} ToBytesFold(data: seq<Byte>)
    ensures ToBytes(FoldBytes(data), |data|) == data
  {
    if data != [] {
      var prefix := data[..|data| - 1];
      ToBytesFold(prefix);
      assert data == prefix + [data[|data| - 1]];
    }
  }

  /** Whether a byte order names little-endian: `order.lower().startswith('little')`. */
  predicate IsLittle(order: string)
  {
    StartsWith(Lower(order), "little")
  }

  /** `get.unsigned(ea, size, byteorder=order)` for the bytes `data` read at `ea`. */
  function Unsigned(data: seq<Byte>, order: string): (r: nat)
    ensures r < Pow2(8 * |data|)
    ensures IsLittle(order) ==> ToBytes(r, |data|) == Reverse(data)
    ensures !IsLittle(order) ==> ToBytes(r, |data|) == data
  {
    var bytes := if IsLittle(order) then Reverse(data) else data;
    ToBytesFold(bytes);
    FoldBytes(bytes)
  }

  /** Below `2**bits`, the top bit is set exactly from `2**(bits-1)` on. */
  lemma {:induction false} TopBit(res: nat, h: nat)
    requires h > 0 && res < 2 * h
    ensures (res / h) % 2 == 1 <==> res >= h
  {
    if res >= h {
      assert res / h == 1;
    } else {
      assert res / h == 0;
    }
  }

  lemma {:induction false} NegatedModulus(m: int)
    requires m > 0
    ensures (-m) % m == 0
  {
    assert -m == (-1) * m;
  }

  /** `get.signed(ea, size, byteorder=order)`: the unsigned value less
      `2**bits` when its top bit is set. */
  function Signed(data: seq<Byte>, order: string): (r: int)
    ensures |data| > 0 ==> -(Pow2(8 * |data| - 1) as int) <= r < Pow2(8 * |data| - 1)
    ensures (r - Unsigned(data, order)) % Pow2(8 * |data|) == 0
    ensures |data| == 0 ==> r == 0
    ensures |data| > 0 ==> (r == Unsigned(data, order) <==> Unsigned(data, order) < Pow2(8 * |data| - 1))
  {
    var bits := 8 * |data|;
    var res := Unsigned(data, order);
    if bits == 0 then res
    else
      Pow2Add(bits - 1, 1);
      TopBit(res, Pow2(bits - 1));
      NegatedModulus(Pow2(bits));
      if (res / Pow2(bits - 1)) % 2 == 1 then res - Pow2(bits) else res
  }

  /** The same bytes read in opposite byte orders give the same number once one of them is reversed. */
  lemma {:induction false} ByteOrderSwap(data: seq<Byte>)
    ensures Unsigned(Reverse(data), "little") == Unsigned(data, "big")
  {
    assert Lower("little") == "little";
    assert Lower("big") == "big";
    assert IsLittle("little") && !IsLittle("big");
    assert Reverse(Reverse(data)) == data;
  }

  /** Reading back the bytes written for a value below `2**(8*n)` gives the value. */
  lemma {:induction false} UnsignedRoundTrip(x: nat, n: nat)
    requires x < Pow2(8 * n)
    ensures Unsigned(ToBytes(x, n), "big") == x
  {
    assert Lower("big") == "big";
    FoldToBytes(x, n);
  }
}
