/** Fixed-size byte hashes H32, H160, H256 and H512 (src/hash.rs). The four types
    share one implementation; here one generic value carries its width. Display
    writes the bytes as lower-case hex, two digits per byte; parsing takes the hex
    decoder's result as input, and what a decoder must do with well-formed hex
    text is stated as a relation between text and bytes. */
module Hash {

  type Byte = x: int | 0 <= x < 0x100

  /** The four hash types of the source. */
  datatype Width = H32 | H160 | H256 | H512

  /** `size()`: the number of bytes of each hash type. */
  function Size(w: Width): (n: nat)
    ensures n in {4, 20, 32, 64}
    ensures w == H256 ==> n == 32
  {
    match w
    case H32 => 4
    case H160 => 20
    case H256 => 32
    case H512 => 64
  }

  /** A hash: its type and its bytes, exactly `Size(w)` of them. */
  datatype Hash = Hash(w: Width, bytes: seq<Byte>)

  predicate WellSized(h: Hash) {
    |h.bytes| == Size(h.w)
  }

  /** The errors of the hex crate's decoder, plus the length error `from_str` adds. */
  datatype HexError = InvalidHexCharacter(c: char, index: nat) | OddLength | InvalidHexLength

  datatype Parsed = Ok(value: Hash) | Err(error: HexError)

  /** What the hex decoder returns for a string: the bytes, or its error. */
  datatype Decoded = Bytes(data: seq<Byte>) | DecodeError(error: HexError)

  /** All-zero sequence of length `n`. */
  function Zeros(n: nat): (s: seq<Byte>)
    ensures |s| == n && forall i :: 0 <= i < n ==> s[i] == 0
  {
    seq(n, _ => 0)
  }

  /** `Default`: all bytes zero. */
  function Default(w: Width): (h: Hash)
    ensures WellSized(h) && h.w == w
    ensures forall i :: 0 <= i < Size(w) ==> h.bytes[i] == 0
  {
    Hash(w, Zeros(Size(w)))
  }

  /** `From<u8>`: the byte goes first, the rest are zero. */
  function FromByte(w: Width, v: Byte): (h: Hash)
    ensures WellSized(h) && h.w == w
    ensures h.bytes[0] == v
    ensures forall i :: 1 <= i < Size(w) ==> h.bytes[i] == 0
  {
    Hash(w, Default(w).bytes[0 := v])
  }

  /** `From<&[u8]>`: copies the first `Size(w)` bytes; a shorter slice makes the
      source panic on `slc[0..N]`, so it is excluded here. */
  function FromSlice(w: Width, slc: seq<Byte>): (h: Hash)
    requires |slc| >= Size(w)
    ensures WellSized(h) && h.w == w
    ensures h.bytes == slc[..Size(w)]
  {
    Hash(w, slc[..Size(w)])
  }

  /** `FromStr`: decoder errors pass through; decoded bytes of the wrong length are
      `InvalidHexLength`; otherwise the bytes become the hash. */
  function FromStr(w: Width, decoded: Decoded): (r: Parsed)
    ensures r.Ok? <==> decoded.Bytes? && |decoded.data| == Size(w)
    ensures r.Ok? ==> WellSized(r.value) && r.value.w == w && r.value.bytes == decoded.data
    ensures decoded.DecodeError? ==> r == Err(decoded.error)
    ensures decoded.Bytes? && |decoded.data| != Size(w) ==> r == Err(InvalidHexLength)
  {
    match decoded
    case DecodeError(e) => Err(e)
    case Bytes(v) => if |v| == Size(w) then Ok(Hash(w, v)) else Err(InvalidHexLength)
  }

  /** The bytes in reverse order. */
  function Reverse(s: seq<Byte>): (r: seq<Byte>)
    ensures |r| == |s|
    ensures forall i :: 0 <= i < |s| ==> r[i] == s[|s| - 1 - i]
  {
    if s == [] then [] else Reverse(s[1..]) + [s[0]]
  }

  /** `reversed()`: a hash of the same type with its bytes in reverse order. */
  function Reversed(h: Hash): (r: Hash)
    ensures r.w == h.w && |r.bytes| == |h.bytes|
    ensures forall i :: 0 <= i < |h.bytes| ==> r.bytes[i] == h.bytes[|h.bytes| - 1 - i]
  {
    Hash(h.w, Reverse(h.bytes))
  }

  /** Reversing twice gives the hash back. */
  lemma ReversedTwice(h: Hash)
    ensures Reversed(Reversed(h)) == h
  {
    assert Reversed(Reversed(h)).bytes == h.bytes;
  }

  /** `is_zero()`: every byte is zero, read front to back as `iter().all` does. */
  function IsZero(s: seq<Byte>): (z: bool)
    ensures z <==> forall i :: 0 <= i < |s| ==> s[i] == 0
  {
    if s == [] then true else s[0] == 0 && IsZero(s[1..])
  }

  lemma DefaultIsZero(w: Width)
    ensures IsZero(Default(w).bytes)
  {
  }

  /** `from(v).is_zero()` exactly when `v` is zero. */
  lemma FromByteIsZeroIff(w: Width, v: Byte)
    ensures IsZero(FromByte(w, v).bytes) <==> v == 0
  {
  }

  datatype Ordering = Less | Equal | Greater

  /** Slice comparison, as `PartialOrd` for `[u8]` does it: lexicographic, and a
      proper prefix is smaller. */
  function Compare(a: seq<Byte>, b: seq<Byte>): (o: Ordering)
    ensures o == Equal <==> a == b
  {
    if a == [] && b == [] then Equal
    else if a == [] then Less
    else if b == [] then Greater
    else if a[0] < b[0] then Less
    else if a[0] > b[0] then Greater
    else
      var o := Compare(a[1..], b[1..]);
      assert o == Equal ==> a == [a[0]] + a[1..] && b == [b[0]] + b[1..];
      o
  }

  /** `PartialEq` and `PartialOrd` of two hashes compare their byte slices. */
  function Eq(h: Hash, g: Hash): (e: bool)
    requires WellSized(h) && WellSized(g) && h.w == g.w
    ensures e <==> h == g
  {
    Compare(h.bytes, g.bytes) == Equal
  }

  function Flip(o: Ordering): Ordering {
    match o
    case Less => Greater
    case Equal => Equal
    case Greater => Less
  }

  /** The comparison is antisymmetric. */
  lemma {:induction false} CompareFlip(a: seq<Byte>, b: seq<Byte>)
    ensures Compare(b, a) == Flip(Compare(a, b))
  {
    if a != [] && b != [] && a[0] == b[0] {
      CompareFlip(a[1..], b[1..]);
    }
  }

  /** The comparison is transitive on `Less`, so it is a total order on hashes. */
  lemma {:induction false} CompareTransitive(a: seq<Byte>, b: seq<Byte>, c: seq<Byte>)
    requires Compare(a, b) == Less && Compare(b, c) == Less
    ensures Compare(a, c) == Less
  {
    if a != [] && b != [] && c != [] && a[0] == b[0] && b[0] == c[0] {
      CompareTransitive(a[1..], b[1..], c[1..]);
    }
  }

  /** The zero hash is the least hash of its type. */
  lemma {:induction false} ZeroIsLeast(s: seq<Byte>)
    ensures Compare(Zeros(|s|), s) != Greater
  {
    if s != [] {
      assert Zeros(|s|)[1..] == Zeros(|s| - 1);
      ZeroIsLeast(s[1..]);
    }
  }

  /** `From<&'static str>` unwraps the parse, which panics on any error, so the
      decoded bytes must already have the right length. */
  function FromStaticStr(w: Width, decoded: Decoded): (h: Hash)
    requires FromStr(w, decoded).Ok?
    ensures WellSized(h) && h.w == w && h.bytes == decoded.data
  {
    FromStr(w, decoded).value
  }

  /** `H256::from_reversed_str`: parse, then reverse the bytes. */
  function FromReversedStr(decoded: Decoded): (h: Hash)
    requires FromStr(H256, decoded).Ok?
    ensures WellSized(h) && h.w == H256
    ensures h.bytes == Reverse(decoded.data)
  {
    Reversed(FromStaticStr(H256, decoded))
  }

  /** The lower-case hex digit of a value below 16. */
  function HexDigit(v: nat): (c: char)
    requires v < 16
  {
    if v < 10 then ('0' as int + v) as char else ('a' as int + v - 10) as char
  }

  /** The value of a hex digit of either case, -1 for any other character. */
  function DigitValue(c: char): (v: int)
    ensures -1 <= v < 16
  {
    if '0' <= c <= '9' then c as int - '0' as int
    else if 'a' <= c <= 'f' then c as int - 'a' as int + 10
    else if 'A' <= c <= 'F' then c as int - 'A' as int + 10
    else -1
  }

  /** `to_hex()`: each byte as two lower-case hex digits, the high one first. */
  function ToHex(b: seq<Byte>): (s: string)
    ensures |s| == 2 * |b|
    ensures forall i :: 0 <= i < |b| ==> s[2 * i] == HexDigit(b[i] / 16) && s[2 * i + 1] == HexDigit(b[i] % 16)
  {
    if b == [] then ""
    else
      var t := ToHex(b[1..]);
      var s := [HexDigit(b[0] / 16), HexDigit(b[0] % 16)] + t;
      assert forall i :: 1 <= i < |b| ==> s[2 * i] == t[2 * (i - 1)] && s[2 * i + 1] == t[2 * (i - 1) + 1];
      s
  }

  /** Text `s` is the hex of the bytes `b`: two digits, of either case, per
      byte, the high one first. This is what the hex decoder accepts and
      turns into those bytes. */
  predicate IsHex(s: string, b: seq<Byte>) {
    |s| == 2 * |b| &&
    forall i :: 0 <= i < |b| ==>
      0 <= DigitValue(s[2 * i]) && 0 <= DigitValue(s[2 * i + 1]) &&
      16 * DigitValue(s[2 * i]) + DigitValue(s[2 * i + 1]) == b[i]
  }

  /** A hex decoder: it returns the bytes of any well-formed hex text. */
  ghost predicate Decodes(unhex: string -> Decoded) {
    forall s, b :: IsHex(s, b) ==> unhex(s) == Bytes(b)
  }

  /** Every digit `HexDigit` writes reads back as its value. */
  lemma DigitRoundTrip(v: nat)
    requires v < 16
    ensures DigitValue(HexDigit(v)) == v
  {
  }

  /** `to_hex()` writes well-formed hex text of its bytes. */
  lemma ToHexIsHex(b: seq<Byte>)
    ensures IsHex(ToHex(b), b)
  {
    var s := ToHex(b);
    forall i | 0 <= i < |b|
      ensures 0 <= DigitValue(s[2 * i]) && 0 <= DigitValue(s[2 * i + 1])
      ensures 16 * DigitValue(s[2 * i]) + DigitValue(s[2 * i + 1]) == b[i]
    {
      DigitRoundTrip(b[i] / 16);
      DigitRoundTrip(b[i] % 16);
    }
  }

  /** `Display`: the hex text of the bytes. */
  function Display(h: Hash): (s: string)
    ensures IsHex(s, h.bytes)
  {
    ToHexIsHex(h.bytes);
    ToHex(h.bytes)
  }

  /** `H256::to_reversed_str`: the display text of the reversed hash, so the
      last byte is written first. */
  function ToReversedStr(h: Hash): (s: string)
    ensures |s| == 2 * |h.bytes|
    ensures forall i :: 0 <= i < |h.bytes| ==>
      s[2 * i] == HexDigit(h.bytes[|h.bytes| - 1 - i] / 16) &&
      s[2 * i + 1] == HexDigit(h.bytes[|h.bytes| - 1 - i] % 16)
  {
    Display(Reversed(h))
  }

  /** Reading a reversed string and writing it back reversed gives the hex
      text of the decoded bytes: the two byte reversals cancel. */
  lemma ReversedStrRoundTrip(decoded: Decoded)
    requires FromStr(H256, decoded).Ok?
    ensures ToReversedStr(FromReversedStr(decoded)) == ToHex(decoded.data)
  {
    ReversedTwice(FromStaticStr(H256, decoded));
  }

  /** Writing an `H256` reversed and reading the text back reversed, with any
      hex decoder, gives the hash back. */
  lemma ReversedStrParse(h: Hash, unhex: string -> Decoded)
    requires WellSized(h) && h.w == H256 && Decodes(unhex)
    ensures FromStr(H256, unhex(ToReversedStr(h))).Ok?
    ensures FromReversedStr(unhex(ToReversedStr(h))) == h
  {
    var s := ToReversedStr(h);
    assert IsHex(s, Reversed(h).bytes);
    assert unhex(s) == Bytes(Reversed(h).bytes);
    ReversedTwice(h);
  }

  /** Displaying a hash and parsing the text back, with any hex decoder,
      returns the same hash. */
  lemma DisplayParseRoundTrip(h: Hash, unhex: string -> Decoded)
    requires WellSized(h) && Decodes(unhex)
    ensures FromStr(h.w, unhex(Display(h))) == Ok(h)
  {
    assert unhex(Display(h)) == Bytes(h.bytes);
  }
}
