/**
  The checksum of a boot image: a table-driven CRC, and the bit-by-bit division
  it stands for.
 */
module Crc {

  type Byte = b: int | 0 <= b < 256

  /** The generator polynomial of section 3.2.9 of IEEE 802.3-2008, without its
      leading term. */
  const POLY: bv32 := 0x04c11db7

  // ---------- Long division of bit strings ----------

  function Xor(a: seq<bool>, b: seq<bool>): (c: seq<bool>)
    requires |a| == |b|
    ensures |c| == |a| && forall k :: 0 <= k < |a| ==> c[k] == (a[k] != b[k])
  {
    seq(|a|, k requires 0 <= k < |a| => a[k] != b[k])
  }

  function Zeros(n: nat): (z: seq<bool>)
    ensures |z| == n && forall k :: 0 <= k < n ==> !z[k]
  {
    seq(n, _ => false)
  }

  /** The remainder on dividing by the polynomial with the leading term 1 and the
      other 32 coefficients g: while there are more than 32 digits, the divisor is
      taken off wherever the first digit is 1, and that digit, now 0, dropped. */
  function Remainder(digits: seq<bool>, g: seq<bool>): (r: seq<bool>)
    requires |g| == 32 && |digits| >= 32
    ensures |r| == 32
    decreases |digits|
  {
    if |digits| == 32 then digits
    else Remainder(if digits[0] then Xor(digits[1..], g + Zeros(|digits| - 33)) else digits[1..], g)
  }

  /** The message followed by 32 zeros, with the first 32 digits changed by `first`. */
  function Dividend(first: seq<bool>, message: seq<bool>): (d: seq<bool>)
    requires |first| == 32
    ensures |d| == |message| + 32
  {
    Xor(first + Zeros(|message|), message + Zeros(32))
  }

  // ---------- A register of 32 bits ----------

  // The operations on the register are named, so that most proofs can rest on a
  // few laws about them.

  function TopBit(x: bv32): bool {
    x & 0x8000_0000 != 0
  }

  function Shl(x: bv32): bv32 {
    x << 1
  }

  function Plus(x: bv32, y: bv32): bv32 {
    x ^ y
  }

  lemma PlusComm(x: bv32, y: bv32)
    ensures Plus(x, y) == Plus(y, x)
  {
  }

  lemma PlusAssoc(x: bv32, y: bv32, p: bv32)
    ensures Plus(Plus(x, y), p) == Plus(x, Plus(y, p))
  {
  }

  lemma PlusSelf(x: bv32, p: bv32)
    ensures Plus(Plus(x, p), p) == x
  {
  }

  lemma PlusZero(x: bv32)
    ensures Plus(x, 0) == x
  {
  }

  lemma PlusTwice(x: bv32, y: bv32, p: bv32)
    ensures Plus(Plus(x, p), y) == Plus(Plus(x, y), p)
    ensures Plus(x, Plus(y, p)) == Plus(Plus(x, y), p)
    ensures Plus(Plus(x, p), Plus(y, p)) == Plus(x, y)
  {
    hide Plus;
    PlusAssoc(x, y, p);
    PlusAssoc(x, p, y);
    PlusComm(y, p);
    PlusAssoc(Plus(x, p), y, p);
    PlusSelf(Plus(x, y), p);
  }

  lemma ShlPlus(x: bv32, y: bv32)
    ensures Shl(Plus(x, y)) == Plus(Shl(x), Shl(y))
  {
  }

  lemma TopPlus(x: bv32, y: bv32)
    ensures TopBit(Plus(x, y)) == (TopBit(x) != TopBit(y))
  {
  }

  /** The n highest bits, highest first. */
  function Bits(x: bv32, n: nat): (b: seq<bool>)
    ensures |b| == n
    decreases n
  {
    if n == 0 then [] else [TopBit(x)] + Bits(Shl(x), n - 1)
  }

  /** One digit of the message. */
  function Feed(crc: bv32, digit: bool): bv32 {
    if TopBit(crc) != digit then Plus(Shl(crc), POLY) else Shl(crc)
  }

  function FeedAll(crc: bv32, digits: seq<bool>): bv32
    decreases |digits|
  {
    if digits == [] then crc else FeedAll(Feed(crc, digits[0]), digits[1..])
  }

  lemma {:induction false} BitsOfPlus(x: bv32, y: bv32, n: nat)
    ensures Bits(Plus(x, y), n) == Xor(Bits(x, n), Bits(y, n))
    decreases n
  {
    hide Plus, Shl, TopBit;
    if n > 0 {
      ShlPlus(x, y);
      TopPlus(x, y);
      BitsOfPlus(Shl(x), Shl(y), n - 1);
    }
  }

  function Shifted(x: bv32, n: nat): bv32
    decreases n
  {
    if n == 0 then x else Shifted(Shl(x), n - 1)
  }

  lemma {:induction false} ShiftedSum(x: bv32, m: nat, n: nat)
    ensures Shifted(x, m + n) == Shifted(Shifted(x, m), n)
    decreases m
  {
    if m > 0 {
      ShiftedSum(Shl(x), m - 1, n);
    }
  }

  function Shl8(x: bv32): bv32 {
    x << 8
  }

  lemma ShlEight(x: bv32)
    ensures Shl(Shl(Shl(Shl(Shl(Shl(Shl(Shl(x)))))))) == Shl8(x)
  {
  }

  lemma Shl8Out(x: bv32)
    ensures Shl8(Shl8(Shl8(Shl8(x)))) == 0
  {
  }

  lemma Shifted4(x: bv32)
    ensures Shifted(x, 4) == Shl(Shl(Shl(Shl(x))))
  {
    hide Shl;
    assert Shifted(x, 4) == Shifted(Shl(x), 3) == Shifted(Shl(Shl(x)), 2);
  }

  lemma Shifted8(x: bv32)
    ensures Shifted(x, 8) == Shl8(x)
  {
    hide Shifted, Shl, Shl8;
    Shifted4(x);
    Shifted4(Shifted(x, 4));
    ShiftedSum(x, 4, 4);
    ShlEight(x);
  }

  lemma ShiftedOut(x: bv32)
    ensures Shifted(x, 32) == 0
  {
    hide Shifted, Shl8;
    var y := Shl8(x);
    var z := Shl8(y);
    Shifted8(x);
    Shifted8(y);
    Shifted8(z);
    Shifted8(Shl8(z));
    ShiftedSum(x, 8, 8);
    ShiftedSum(x, 16, 8);
    ShiftedSum(x, 24, 8);
    Shl8Out(x);
  }

  lemma {:induction false} BitsSnoc(x: bv32, n: nat)
    ensures Bits(x, n + 1) == Bits(x, n) + [TopBit(Shifted(x, n))]
    decreases n
  {
    if n > 0 {
      BitsSnoc(Shl(x), n - 1);
    }
  }

  /** What a shift does to the digits of the register. */
  lemma BitsOfShift(x: bv32)
    ensures Bits(Shl(x), 32) == Bits(x, 32)[1..] + [false]
    ensures Bits(x, 32)[0] == TopBit(x)
  {
    assert !TopBit(0);
    hide Shl, TopBit, Shifted;
    BitsSnoc(x, 32);
    ShiftedOut(x);
    assert Bits(x, 33) == [TopBit(x)] + Bits(Shl(x), 32);
    assert Bits(x, 33)[1..] == Bits(Shl(x), 32);
    assert (Bits(x, 32) + [false])[1..] == Bits(x, 32)[1..] + [false];
  }

  /** Feeding the message to the register is long division. */
  lemma {:induction false} FeedDivides(crc: bv32, digits: seq<bool>)
    ensures Bits(FeedAll(crc, digits), 32) == Remainder(Dividend(Bits(crc, 32), digits), Bits(POLY, 32))
    decreases |digits|
  {
    hide Bits, Feed;
    var c, g := Bits(crc, 32), Bits(POLY, 32);
    if digits == [] {
      assert Dividend(c, digits) == c;
    } else {
      FeedDivides(Feed(crc, digits[0]), digits[1..]);
      FeedBits(crc, digits[0]);
      DivideStep(c, digits, g);
    }
  }

  lemma FeedBits(crc: bv32, digit: bool)
    ensures Bits(Feed(crc, digit), 32) == Fed(Bits(crc, 32), digit, Bits(POLY, 32))
  {
    hide Bits, Plus, Shl, TopBit;
    BitsOfShift(crc);
    if TopBit(crc) != digit {
      BitsOfPlus(Shl(crc), POLY, 32);
    }
  }

  function Fed(c: seq<bool>, digit: bool, g: seq<bool>): (r: seq<bool>)
    requires |c| == |g| == 32
    ensures |r| == 32
  {
    if c[0] != digit then Xor(c[1..] + [false], g) else c[1..] + [false]
  }

  lemma DivideStep(c: seq<bool>, digits: seq<bool>, g: seq<bool>)
    requires |c| == |g| == 32 && digits != []
    ensures Remainder(Dividend(c, digits), g) == Remainder(Dividend(Fed(c, digits[0], g), digits[1..]), g)
  {
    hide Remainder;
    var d, next := Dividend(c, digits), Dividend(Fed(c, digits[0], g), digits[1..]);
    assert d[0] == (c[0] != digits[0]);
    var n := |digits| - 1;
    forall k | 0 <= k < n + 32
      ensures next[k] == if d[0] then d[1..][k] != (g + Zeros(n))[k] else d[1..][k]
    {
      NextDigit(c, digits, g, k);
    }
    assert next == if d[0] then Xor(d[1..], g + Zeros(n)) else d[1..];
    RemainderStep(d, g);
  }

  lemma NextDigit(c: seq<bool>, digits: seq<bool>, g: seq<bool>, k: nat)
    requires |c| == |g| == 32 && digits != [] && k < |digits| - 1 + 32
    ensures var d, next := Dividend(c, digits), Dividend(Fed(c, digits[0], g), digits[1..]);
      next[k] == if d[0] then d[1..][k] != (g + Zeros(|digits| - 1))[k] else d[1..][k]
  {
  }

  lemma RemainderStep(d: seq<bool>, g: seq<bool>)
    requires |g| == 32 && |d| > 32
    ensures Remainder(d, g) == Remainder(if d[0] then Xor(d[1..], g + Zeros(|d| - 33)) else d[1..], g)
  {
  }

  // ---------- Eight bits at a time ----------

  /** crc_table, its entries in order, in blocks of 16 and found there by halving. */
  function CrcTable(i: bv8): bv32 {
    if i < 128 then
      if i < 64 then
        if i < 32 then (if i < 16 then Block0(i) else Block1(i)) else if i < 48 then Block2(i) else Block3(i)
      else
        if i < 96 then (if i < 80 then Block4(i) else Block5(i)) else if i < 112 then Block6(i) else Block7(i)
    else
      if i < 192 then
        if i < 160 then (if i < 144 then Block8(i) else Block9(i)) else if i < 176 then Block10(i) else Block11(i)
      else
        if i < 224 then (if i < 208 then Block12(i) else Block13(i)) else if i < 240 then Block14(i) else Block15(i)
  }

  function Block0(i: bv8): bv32 {
    if i < 8 then
      if i < 4 then
        if i < 2 then (if i < 1 then 0x00000000 else 0x04c11db7) else if i < 3 then 0x09823b6e else 0x0d4326d9
      else
        if i < 6 then (if i < 5 then 0x130476dc else 0x17c56b6b) else if i < 7 then 0x1a864db2 else 0x1e475005
    else
      if i < 12 then
        if i < 10 then (if i < 9 then 0x2608edb8 else 0x22c9f00f) else if i < 11 then 0x2f8ad6d6 else 0x2b4bcb61
      else
        if i < 14 then (if i < 13 then 0x350c9b64 else 0x31cd86d3) else if i < 15 then 0x3c8ea00a else 0x384fbdbd
  }

  function Block1(i: bv8): bv32 {
    if i < 24 then
      if i < 20 then
        if i < 18 then (if i < 17 then 0x4c11db70 else 0x48d0c6c7) else if i < 19 then 0x4593e01e else 0x4152fda9
      else
        if i < 22 then (if i < 21 then 0x5f15adac else 0x5bd4b01b) else if i < 23 then 0x569796c2 else 0x52568b75
    else
      if i < 28 then
        if i < 26 then (if i < 25 then 0x6a1936c8 else 0x6ed82b7f) else if i < 27 then 0x639b0da6 else 0x675a1011
      else
        if i < 30 then (if i < 29 then 0x791d4014 else 0x7ddc5da3) else if i < 31 then 0x709f7b7a else 0x745e66cd
  }

  function Block2(i: bv8): bv32 {
    if i < 40 then
      if i < 36 then
        if i < 34 then (if i < 33 then 0x9823b6e0 else 0x9ce2ab57) else if i < 35 then 0x91a18d8e else 0x95609039
      else
        if i < 38 then (if i < 37 then 0x8b27c03c else 0x8fe6dd8b) else if i < 39 then 0x82a5fb52 else 0x8664e6e5
    else
      if i < 44 then
        if i < 42 then (if i < 41 then 0xbe2b5b58 else 0xbaea46ef) else if i < 43 then 0xb7a96036 else 0xb3687d81
      else
        if i < 46 then (if i < 45 then 0xad2f2d84 else 0xa9ee3033) else if i < 47 then 0xa4ad16ea else 0xa06c0b5d
  }

  function Block3(i: bv8): bv32 {
    if i < 56 then
      if i < 52 then
        if i < 50 then (if i < 49 then 0xd4326d90 else 0xd0f37027) else if i < 51 then 0xddb056fe else 0xd9714b49
      else
        if i < 54 then (if i < 53 then 0xc7361b4c else 0xc3f706fb) else if i < 55 then 0xceb42022 else 0xca753d95
    else
      if i < 60 then
        if i < 58 then (if i < 57 then 0xf23a8028 else 0xf6fb9d9f) else if i < 59 then 0xfbb8bb46 else 0xff79a6f1
      else
        if i < 62 then (if i < 61 then 0xe13ef6f4 else 0xe5ffeb43) else if i < 63 then 0xe8bccd9a else 0xec7dd02d
  }

  function Block4(i: bv8): bv32 {
    if i < 72 then
      if i < 68 then
        if i < 66 then (if i < 65 then 0x34867077 else 0x30476dc0) else if i < 67 then 0x3d044b19 else 0x39c556ae
      else
        if i < 70 then (if i < 69 then 0x278206ab else 0x23431b1c) else if i < 71 then 0x2e003dc5 else 0x2ac12072
    else
      if i < 76 then
        if i < 74 then (if i < 73 then 0x128e9dcf else 0x164f8078) else if i < 75 then 0x1b0ca6a1 else 0x1fcdbb16
      else
        if i < 78 then (if i < 77 then 0x018aeb13 else 0x054bf6a4) else if i < 79 then 0x0808d07d else 0x0cc9cdca
  }

  function Block5(i: bv8): bv32 {
    if i < 88 then
      if i < 84 then
        if i < 82 then (if i < 81 then 0x7897ab07 else 0x7c56b6b0) else if i < 83 then 0x71159069 else 0x75d48dde
      else
        if i < 86 then (if i < 85 then 0x6b93dddb else 0x6f52c06c) else if i < 87 then 0x6211e6b5 else 0x66d0fb02
    else
      if i < 92 then
        if i < 90 then (if i < 89 then 0x5e9f46bf else 0x5a5e5b08) else if i < 91 then 0x571d7dd1 else 0x53dc6066
      else
        if i < 94 then (if i < 93 then 0x4d9b3063 else 0x495a2dd4) else if i < 95 then 0x44190b0d else 0x40d816ba
  }

  function Block6(i: bv8): bv32 {
    if i < 104 then
      if i < 100 then
        if i < 98 then (if i < 97 then 0xaca5c697 else 0xa864db20) else if i < 99 then 0xa527fdf9 else 0xa1e6e04e
      else
        if i < 102 then (if i < 101 then 0xbfa1b04b else 0xbb60adfc) else if i < 103 then 0xb6238b25 else 0xb2e29692
    else
      if i < 108 then
        if i < 106 then (if i < 105 then 0x8aad2b2f else 0x8e6c3698) else if i < 107 then 0x832f1041 else 0x87ee0df6
      else
        if i < 110 then (if i < 109 then 0x99a95df3 else 0x9d684044) else if i < 111 then 0x902b669d else 0x94ea7b2a
  }

  function Block7(i: bv8): bv32 {
    if i < 120 then
      if i < 116 then
        if i < 114 then (if i < 113 then 0xe0b41de7 else 0xe4750050) else if i < 115 then 0xe9362689 else 0xedf73b3e
      else
        if i < 118 then (if i < 117 then 0xf3b06b3b else 0xf771768c) else if i < 119 then 0xfa325055 else 0xfef34de2
    else
      if i < 124 then
        if i < 122 then (if i < 121 then 0xc6bcf05f else 0xc27dede8) else if i < 123 then 0xcf3ecb31 else 0xcbffd686
      else
        if i < 126 then (if i < 125 then 0xd5b88683 else 0xd1799b34) else if i < 127 then 0xdc3abded else 0xd8fba05a
  }

  function Block8(i: bv8): bv32 {
    if i < 136 then
      if i < 132 then
        if i < 130 then (if i < 129 then 0x690ce0ee else 0x6dcdfd59) else if i < 131 then 0x608edb80 else 0x644fc637
      else
        if i < 134 then (if i < 133 then 0x7a089632 else 0x7ec98b85) else if i < 135 then 0x738aad5c else 0x774bb0eb
    else
      if i < 140 then
        if i < 138 then (if i < 137 then 0x4f040d56 else 0x4bc510e1) else if i < 139 then 0x46863638 else 0x42472b8f
      else
        if i < 142 then (if i < 141 then 0x5c007b8a else 0x58c1663d) else if i < 143 then 0x558240e4 else 0x51435d53
  }

  function Block9(i: bv8): bv32 {
    if i < 152 then
      if i < 148 then
        if i < 146 then (if i < 145 then 0x251d3b9e else 0x21dc2629) else if i < 147 then 0x2c9f00f0 else 0x285e1d47
      else
        if i < 150 then (if i < 149 then 0x36194d42 else 0x32d850f5) else if i < 151 then 0x3f9b762c else 0x3b5a6b9b
    else
      if i < 156 then
        if i < 154 then (if i < 153 then 0x0315d626 else 0x07d4cb91) else if i < 155 then 0x0a97ed48 else 0x0e56f0ff
      else
        if i < 158 then (if i < 157 then 0x1011a0fa else 0x14d0bd4d) else if i < 159 then 0x19939b94 else 0x1d528623
  }

  function Block10(i: bv8): bv32 {
    if i < 168 then
      if i < 164 then
        if i < 162 then (if i < 161 then 0xf12f560e else 0xf5ee4bb9) else if i < 163 then 0xf8ad6d60 else 0xfc6c70d7
      else
        if i < 166 then (if i < 165 then 0xe22b20d2 else 0xe6ea3d65) else if i < 167 then 0xeba91bbc else 0xef68060b
    else
      if i < 172 then
        if i < 170 then (if i < 169 then 0xd727bbb6 else 0xd3e6a601) else if i < 171 then 0xdea580d8 else 0xda649d6f
      else
        if i < 174 then (if i < 173 then 0xc423cd6a else 0xc0e2d0dd) else if i < 175 then 0xcda1f604 else 0xc960ebb3
  }

  function Block11(i: bv8): bv32 {
    if i < 184 then
      if i < 180 then
        if i < 178 then (if i < 177 then 0xbd3e8d7e else 0xb9ff90c9) else if i < 179 then 0xb4bcb610 else 0xb07daba7
      else
        if i < 182 then (if i < 181 then 0xae3afba2 else 0xaafbe615) else if i < 183 then 0xa7b8c0cc else 0xa379dd7b
    else
      if i < 188 then
        if i < 186 then (if i < 185 then 0x9b3660c6 else 0x9ff77d71) else if i < 187 then 0x92b45ba8 else 0x9675461f
      else
        if i < 190 then (if i < 189 then 0x8832161a else 0x8cf30bad) else if i < 191 then 0x81b02d74 else 0x857130c3
  }

  function Block12(i: bv8): bv32 {
    if i < 200 then
      if i < 196 then
        if i < 194 then (if i < 193 then 0x5d8a9099 else 0x594b8d2e) else if i < 195 then 0x5408abf7 else 0x50c9b640
      else
        if i < 198 then (if i < 197 then 0x4e8ee645 else 0x4a4ffbf2) else if i < 199 then 0x470cdd2b else 0x43cdc09c
    else
      if i < 204 then
        if i < 202 then (if i < 201 then 0x7b827d21 else 0x7f436096) else if i < 203 then 0x7200464f else 0x76c15bf8
      else
        if i < 206 then (if i < 205 then 0x68860bfd else 0x6c47164a) else if i < 207 then 0x61043093 else 0x65c52d24
  }

  function Block13(i: bv8): bv32 {
    if i < 216 then
      if i < 212 then
        if i < 210 then (if i < 209 then 0x119b4be9 else 0x155a565e) else if i < 211 then 0x18197087 else 0x1cd86d30
      else
        if i < 214 then (if i < 213 then 0x029f3d35 else 0x065e2082) else if i < 215 then 0x0b1d065b else 0x0fdc1bec
    else
      if i < 220 then
        if i < 218 then (if i < 217 then 0x3793a651 else 0x3352bbe6) else if i < 219 then 0x3e119d3f else 0x3ad08088
      else
        if i < 222 then (if i < 221 then 0x2497d08d else 0x2056cd3a) else if i < 223 then 0x2d15ebe3 else 0x29d4f654
  }

  function Block14(i: bv8): bv32 {
    if i < 232 then
      if i < 228 then
        if i < 226 then (if i < 225 then 0xc5a92679 else 0xc1683bce) else if i < 227 then 0xcc2b1d17 else 0xc8ea00a0
      else
        if i < 230 then (if i < 229 then 0xd6ad50a5 else 0xd26c4d12) else if i < 231 then 0xdf2f6bcb else 0xdbee767c
    else
      if i < 236 then
        if i < 234 then (if i < 233 then 0xe3a1cbc1 else 0xe760d676) else if i < 235 then 0xea23f0af else 0xeee2ed18
      else
        if i < 238 then (if i < 237 then 0xf0a5bd1d else 0xf464a0aa) else if i < 239 then 0xf9278673 else 0xfde69bc4
  }

  function Block15(i: bv8): bv32 {
    if i < 248 then
      if i < 244 then
        if i < 242 then (if i < 241 then 0x89b8fd09 else 0x8d79e0be) else if i < 243 then 0x803ac667 else 0x84fbdbd0
      else
        if i < 246 then (if i < 245 then 0x9abc8bd5 else 0x9e7d9662) else if i < 247 then 0x933eb0bb else 0x97ffad0c
    else
      if i < 252 then
        if i < 250 then (if i < 249 then 0xafb010b1 else 0xab710d06) else if i < 251 then 0xa6322bdf else 0xa2f33668
      else
        if i < 254 then (if i < 253 then 0xbcb4666d else 0xb8757bda) else if i < 255 then 0xb5365d03 else 0xb1f740b4
  }

  function Step(x: bv32): bv32 {
    if TopBit(x) then Plus(Shl(x), POLY) else Shl(x)
  }

  function Step8(x: bv32): bv32 {
    Step(Step(Step(Step(Step(Step(Step(Step(x))))))))
  }

  /** The byte as the eight highest bits. */
  function High(b: bv8): bv32 {
    (b as bv32) << 24
  }

  lemma Entries0(i: bv8)
    requires 0 <= i < 16
    ensures Block0(i) == Step8(High(i))
  {
  }

  lemma Entries1(i: bv8)
    requires 16 <= i < 32
    ensures Block1(i) == Step8(High(i))
  {
  }

  lemma Entries2(i: bv8)
    requires 32 <= i < 48
    ensures Block2(i) == Step8(High(i))
  {
  }

  lemma Entries3(i: bv8)
    requires 48 <= i < 64
    ensures Block3(i) == Step8(High(i))
  {
  }

  lemma Entries4(i: bv8)
    requires 64 <= i < 80
    ensures Block4(i) == Step8(High(i))
  {
  }

  lemma Entries5(i: bv8)
    requires 80 <= i < 96
    ensures Block5(i) == Step8(High(i))
  {
  }

  lemma Entries6(i: bv8)
    requires 96 <= i < 112
    ensures Block6(i) == Step8(High(i))
  {
  }

  lemma Entries7(i: bv8)
    requires 112 <= i < 128
    ensures Block7(i) == Step8(High(i))
  {
  }

  lemma Entries8(i: bv8)
    requires 128 <= i < 144
    ensures Block8(i) == Step8(High(i))
  {
  }

  lemma Entries9(i: bv8)
    requires 144 <= i < 160
    ensures Block9(i) == Step8(High(i))
  {
  }

  lemma Entries10(i: bv8)
    requires 160 <= i < 176
    ensures Block10(i) == Step8(High(i))
  {
  }

  lemma Entries11(i: bv8)
    requires 176 <= i < 192
    ensures Block11(i) == Step8(High(i))
  {
  }

  lemma Entries12(i: bv8)
    requires 192 <= i < 208
    ensures Block12(i) == Step8(High(i))
  {
  }

  lemma Entries13(i: bv8)
    requires 208 <= i < 224
    ensures Block13(i) == Step8(High(i))
  {
  }

  lemma Entries14(i: bv8)
    requires 224 <= i < 240
    ensures Block14(i) == Step8(High(i))
  {
  }

  lemma Entries15(i: bv8)
    requires 240 <= i
    ensures Block15(i) == Step8(High(i))
  {
  }

  /** Every entry of the table is what eight steps make of its index. */
  lemma TableEntries(i: bv8)
    ensures CrcTable(i) == Step8(High(i))
  {
    hide Step8, High;
    hide Block0, Block1, Block2, Block3, Block4, Block5, Block6, Block7;
    hide Block8, Block9, Block10, Block11, Block12, Block13, Block14, Block15;
    if i < 16 {
      Entries0(i);
    } else if i < 32 {
      Entries1(i);
    } else if i < 48 {
      Entries2(i);
    } else if i < 64 {
      Entries3(i);
    } else if i < 80 {
      Entries4(i);
    } else if i < 96 {
      Entries5(i);
    } else if i < 112 {
      Entries6(i);
    } else if i < 128 {
      Entries7(i);
    } else if i < 144 {
      Entries8(i);
    } else if i < 160 {
      Entries9(i);
    } else if i < 176 {
      Entries10(i);
    } else if i < 192 {
      Entries11(i);
    } else if i < 208 {
      Entries12(i);
    } else if i < 224 {
      Entries13(i);
    } else if i < 240 {
      Entries14(i);
    } else {
      Entries15(i);
    }
  }

  function Index(crc: bv32, b: bv8): bv8 {
    ((crc >> 24) as bv8) ^ b
  }

  function Low(crc: bv32): bv32 {
    crc & 0x00ff_ffff
  }

  /** One byte, by way of the table. */
  function FeedByte(crc: bv32, b: bv8): bv32 {
    Plus(Shl8(crc), CrcTable(Index(crc, b)))
  }

  lemma StepPlus(x: bv32, y: bv32)
    ensures Step(Plus(x, y)) == Plus(Step(x), Step(y))
  {
    hide Plus, Shl, TopBit;
    ShlPlus(x, y);
    TopPlus(x, y);
    PlusTwice(Shl(x), Shl(y), POLY);
  }

  lemma Step8Plus(x: bv32, y: bv32)
    ensures Step8(Plus(x, y)) == Plus(Step8(x), Step8(y))
  {
    hide Step, Plus;
    StepPlus(x, y);
    var x1, y1 := Step(x), Step(y);
    StepPlus(x1, y1);
    var x2, y2 := Step(x1), Step(y1);
    StepPlus(x2, y2);
    var x3, y3 := Step(x2), Step(y2);
    StepPlus(x3, y3);
    var x4, y4 := Step(x3), Step(y3);
    StepPlus(x4, y4);
    var x5, y5 := Step(x4), Step(y4);
    StepPlus(x5, y5);
    var x6, y6 := Step(x5), Step(y5);
    StepPlus(x6, y6);
    StepPlus(Step(x6), Step(y6));
  }

  /** Steps that meet no 1 at the top only shift. */
  lemma Step8Low(crc: bv32)
    ensures Step8(Low(crc)) == Shl8(crc)
  {
  }

  lemma SplitParts(crc: bv32, b: bv8, hi: bv32, i: bv8, indexHi: bv32, low: bv32)
    requires hi == (b as bv32) << 24 && i == ((crc >> 24) as bv8) ^ b
    requires indexHi == (i as bv32) << 24 && low == crc & 0x00ff_ffff
    ensures crc ^ hi == indexHi ^ low
  {
  }

  lemma PlusIs(x: bv32, y: bv32, z: bv32, w: bv32)
    requires x ^ y == z ^ w
    ensures Plus(x, y) == Plus(z, w)
  {
  }

  lemma SplitPlus(crc: bv32, b: bv8, hi: bv32, i: bv8, indexHi: bv32, low: bv32)
    requires hi == (b as bv32) << 24 && i == ((crc >> 24) as bv8) ^ b
    requires indexHi == (i as bv32) << 24 && low == crc & 0x00ff_ffff
    ensures Plus(crc, hi) == Plus(indexHi, low)
  {
    hide Plus;
    SplitParts(crc, b, hi, i, indexHi, low);
    PlusIs(crc, hi, indexHi, low);
  }

  /** The top byte of the register and the byte from the message meet in the index. */
  lemma SplitTop(crc: bv32, b: bv8)
    ensures Plus(crc, High(b)) == Plus(High(Index(crc, b)), Low(crc))
  {
    hide Plus;
    SplitPlus(crc, b, High(b), Index(crc, b), High(Index(crc, b)), Low(crc));
  }

  lemma ByteIsSteps(crc: bv32, b: bv8)
    ensures FeedByte(crc, b) == Step8(Plus(crc, High(b)))
  {
    hide CrcTable, Step8, Plus, High, Low, Shl8, Index;
    var i := Index(crc, b);
    TableEntries(i);
    SplitTop(crc, b);
    Step8Plus(High(i), Low(crc));
    Step8Low(crc);
    PlusComm(Shl8(crc), CrcTable(i));
  }

  // ---------- Bytes as digits ----------

  function StepN(x: bv32, n: nat): bv32
    decreases n
  {
    if n == 0 then x else StepN(Step(x), n - 1)
  }

  lemma StepFeeds(x: bv32, y: bv32)
    ensures Step(Plus(x, y)) == Plus(Feed(x, TopBit(y)), Shl(y))
  {
    hide Plus, Shl, TopBit;
    ShlPlus(x, y);
    TopPlus(x, y);
    PlusTwice(Shl(x), Shl(y), POLY);
  }

  /** Steps on the register with the message already in it are the same as feeding
      the message digit by digit. */
  lemma {:induction false} StepsFeed(x: bv32, y: bv32, n: nat)
    ensures StepN(Plus(x, y), n) == Plus(FeedAll(x, Bits(y, n)), Shifted(y, n))
    decreases n
  {
    hide Step, Feed, TopBit, Plus, Shl;
    if n > 0 {
      StepFeeds(x, y);
      StepsFeed(Feed(x, TopBit(y)), Shl(y), n - 1);
      assert Bits(y, n)[1..] == Bits(Shl(y), n - 1);
    }
  }

  /** The eight digits of a byte, highest first. */
  function ByteBits(b: bv8): seq<bool> {
    Bits(High(b), 8)
  }

  lemma HighOut(b: bv8)
    ensures Shl8(High(b)) == 0
  {
  }

  lemma FeedByteFeeds(crc: bv32, b: bv8)
    ensures FeedByte(crc, b) == FeedAll(crc, ByteBits(b))
  {
    HighOut(b);
    hide FeedByte, Step, FeedAll, Bits, Plus, High, Shl8;
    ByteIsSteps(crc, b);
    StepsFeed(crc, High(b), 8);
    Shifted8(High(b));
    StepN8(Plus(crc, High(b)));
    PlusZero(FeedAll(crc, ByteBits(b)));
  }

  lemma StepN8(x: bv32)
    ensures StepN(x, 8) == Step8(x)
  {
    hide Step;
    var x4 := Step(Step(Step(Step(x))));
    assert StepN(x, 8) == StepN(Step(x), 7) == StepN(Step(Step(x)), 6) == StepN(Step(Step(Step(x))), 5) == StepN(x4, 4);
    assert StepN(x4, 4) == StepN(Step(x4), 3) == StepN(Step(Step(x4)), 2) == StepN(Step(Step(Step(x4))), 1);
  }

  // ---------- Messages ----------

  function CrcOf(crc: bv32, m: seq<Byte>): bv32
    decreases |m|
  {
    if m == [] then crc else CrcOf(FeedByte(crc, m[0] as bv8), m[1..])
  }

  function MessageBits(m: seq<Byte>): seq<bool> {
    if m == [] then [] else ByteBits(m[0] as bv8) + MessageBits(m[1..])
  }

  lemma {:induction false} FeedAllSum(crc: bv32, a: seq<bool>, b: seq<bool>)
    ensures FeedAll(crc, a + b) == FeedAll(FeedAll(crc, a), b)
    decreases |a|
  {
    hide Feed;
    if a == [] {
      assert a + b == b;
    } else {
      assert (a + b)[1..] == a[1..] + b;
      FeedAllSum(Feed(crc, a[0]), a[1..], b);
    }
  }

  lemma {:induction false} CrcFeeds(crc: bv32, m: seq<Byte>)
    ensures CrcOf(crc, m) == FeedAll(crc, MessageBits(m))
    decreases |m|
  {
    hide FeedByte, ByteBits;
    if m != [] {
      var b := m[0] as bv8;
      FeedByteFeeds(crc, b);
      CrcFeeds(FeedByte(crc, b), m[1..]);
      FeedAllSum(crc, ByteBits(b), MessageBits(m[1..]));
    }
  }

  /** The table-driven checksum is the remainder of the long division of the
      message, with the start value taken into its first 32 digits. */
  lemma CrcIsRemainder(crc: bv32, m: seq<Byte>)
    ensures Bits(CrcOf(crc, m), 32) == Remainder(Dividend(Bits(crc, 32), MessageBits(m)), Bits(POLY, 32))
  {
    hide CrcOf, Bits, Remainder, Dividend, FeedAll;
    CrcFeeds(crc, m);
    FeedDivides(crc, MessageBits(m));
  }

  /** The checksum of two parts in a row goes on from that of the first. */
  lemma {:induction false} CrcComposes(crc: bv32, a: seq<Byte>, b: seq<Byte>)
    ensures CrcOf(crc, a + b) == CrcOf(CrcOf(crc, a), b)
    decreases |a|
  {
    hide FeedByte;
    if a == [] {
      assert a + b == b;
    } else {
      assert (a + b)[1..] == a[1..] + b;
      CrcComposes(FeedByte(crc, a[0] as bv8), a[1..], b);
    }
  }

  lemma CrcSnoc(crc: bv32, m: seq<Byte>, b: Byte)
    ensures CrcOf(crc, m + [b]) == FeedByte(CrcOf(crc, m), b as bv8)
  {
    hide FeedByte;
    CrcComposes(crc, m, [b]);
    assert CrcOf(CrcOf(crc, m), [b]) == CrcOf(FeedByte(CrcOf(crc, m), b as bv8), [b][1..]);
  }

  /** crc32 over the bytes buf[from..from + length] */
  method Crc32(crc: bv32, buf: array<Byte>, from: nat, length: nat) returns (r: bv32)
    requires from + length <= buf.Length
    ensures r == CrcOf(crc, buf[from..from + length])
  {
    hide FeedByte, CrcOf;
    r := crc;
    var p := from;
    assert buf[from..p] == [];
    assert CrcOf(crc, []) == crc by {
      CrcEmpty(crc);
    }
    while p < from + length
      invariant from <= p <= from + length && r == CrcOf(crc, buf[from..p])
    {
      CrcSnoc(crc, buf[from..p], buf[p]);
      assert buf[from..p + 1] == buf[from..p] + [buf[p]];
      r := FeedByte(r, buf[p] as bv8);
      p := p + 1;
    }
  }

  lemma CrcEmpty(crc: bv32)
    ensures CrcOf(crc, []) == crc
  {
  }
}
