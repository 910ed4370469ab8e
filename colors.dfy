/** `database.color`: the host stores an item colour as 0x00BBGGRR, the
    library speaks 0x00RRGGBB, so reading and writing swap the red and blue
    bytes. Python's `&` with a byte mask and `>> 16` are `%` and `/` below,
    which agree with Python for every integer; the three bytes never
    overlap, so `|` is `+`. */
module Colors {
  import opened Common

  /** What `color(ea, None)` writes, and what the host reports for an uncoloured item. */
  const DefColor: int := 0xffff_ffff

  function HighByte(x: int): (r: int)
    ensures 0 <= r < 0x100
  {
    (x / 0x1_0000) % 0x100
  }

  function MidByte(x: int): (r: int)
    ensures 0 <= r < 0x100
  {
    (x / 0x100) % 0x100
  }

  function LowByte(x: int): (r: int)
    ensures 0 <= r < 0x100
  {
    x % 0x100
  }

  /** The three bytes of a 24-bit value give the value back. */
  lemma {:induction false} BytesOf(hi: int, mid: int, lo: int)
    requires 0 <= hi < 0x100 && 0 <= mid < 0x100 && 0 <= lo < 0x100
    ensures HighByte(hi * 0x1_0000 + mid * 0x100 + lo) == hi
    ensures MidByte(hi * 0x1_0000 + mid * 0x100 + lo) == mid
    ensures LowByte(hi * 0x1_0000 + mid * 0x100 + lo) == lo
  {
    var x := hi * 0x1_0000 + mid * 0x100 + lo;
    assert x / 0x100 == hi * 0x100 + mid;
    assert x / 0x1_0000 == hi;
  }

  /** `color(ea, rgb)`: the raw value handed to `set_item_color`. */
  function ToRaw(rgb: int): (raw: int)
    ensures 0 <= raw < 0x100_0000
    ensures HighByte(raw) == LowByte(rgb) && MidByte(raw) == MidByte(rgb) && LowByte(raw) == HighByte(rgb)
  {
    BytesOf(LowByte(rgb), MidByte(rgb), HighByte(rgb));
    LowByte(rgb) * 0x1_0000 + MidByte(rgb) * 0x100 + HighByte(rgb)
  }

  /** `color(ea)`: `None` for the default colour, otherwise the swapped bytes. */
  function FromRaw(raw: int): (rgb: Option<int>)
    ensures raw == DefColor <==> rgb.None?
    ensures rgb.Some? ==> 0 <= rgb.value < 0x100_0000
    ensures rgb.Some? ==> HighByte(rgb.value) == LowByte(raw) && MidByte(rgb.value) == MidByte(raw)
                          && LowByte(rgb.value) == HighByte(raw)
  {
    if raw == DefColor then None
    else
      BytesOf(LowByte(raw), MidByte(raw), HighByte(raw));
      Some(LowByte(raw) * 0x1_0000 + MidByte(raw) * 0x100 + HighByte(raw))
  }

  /** A 24-bit value is its three bytes. */
  lemma {:induction false} SameBytes(x: int, y: int)
    requires 0 <= x < 0x100_0000 && 0 <= y < 0x100_0000
    requires HighByte(x) == HighByte(y) && MidByte(x) == MidByte(y) && LowByte(x) == LowByte(y)
    ensures x == y
  {
    ByteSum(x);
    ByteSum(y);
  }

  lemma {:induction false} ByteSum(x: int)
    requires 0 <= x < 0x100_0000
    ensures x == HighByte(x) * 0x1_0000 + MidByte(x) * 0x100 + LowByte(x)
  {
    var q := x / 0x100;
    assert x == q * 0x100 + LowByte(x);
    assert q / 0x100 == x / 0x1_0000;
    assert q == (q / 0x100) * 0x100 + MidByte(x);
  }

  /** After `color(ea, rgb)` with a 24-bit `rgb`, `color(ea)` gives `rgb` back. */
  lemma {:induction false} ColorRoundTrip(rgb: int)
    requires 0 <= rgb < 0x100_0000
    ensures FromRaw(ToRaw(rgb)) == Some(rgb)
  {
    var raw := ToRaw(rgb);
    assert raw != DefColor;
    SameBytes(FromRaw(raw).value, rgb);
  }

  /** Swapping red and blue twice is the identity. */
  lemma {:induction false} SwapIsInvolution(rgb: int)
    requires 0 <= rgb < 0x100_0000
    ensures ToRaw(ToRaw(rgb)) == rgb
  {
    SameBytes(ToRaw(ToRaw(rgb)), rgb);
  }
}
