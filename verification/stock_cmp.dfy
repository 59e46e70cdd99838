/** The stock integer comparison functions. A key region of n bytes is
    modelled as the unsigned bit pattern stored in it; each width-specific
    helper reads exactly its own width of that pattern and interprets it as
    a two's-complement or an unsigned integer. */
module StockCmp {
  import opened Ordering

  /** The six width-specific static helpers. */
  datatype Helper = Int16 | Int32 | Int64 | UInt16 | UInt32 | UInt64 {

    /** Width in bytes of the integer the helper dereferences. */
    function Bytes(): nat {
      match this
      case Int16 | UInt16 => 2
      case Int32 | UInt32 => 4
      case Int64 | UInt64 => 8
    }

    /** Number of distinct bit patterns of that width. */
    function Modulus(): int {
      match this
      case Int16 | UInt16 => 0x1_0000
      case Int32 | UInt32 => 0x1_0000_0000
      case Int64 | UInt64 => 0x1_0000_0000_0000_0000
    }

    /** Half the modulus: the first pattern whose top bit is set. */
    function Half(): int {
      match this
      case Int16 | UInt16 => 0x8000
      case Int32 | UInt32 => 0x8000_0000
      case Int64 | UInt64 => 0x8000_0000_0000_0000
    }

    predicate IsSigned() {
      Int16? || Int32? || Int64?
    }
  }

  /** A pattern already within the width is its own remainder. */
  lemma ModSmall(x: nat, m: int)
    requires x < m
    ensures x % m == x
  {
  }

  /** The integer a helper sees when it dereferences a key holding `bits`:
      only the helper's own width is read (the pattern modulo 2^width, which
      is what a little-endian target reads from the start of a wider
      region), and a signed helper reads a pattern with the top bit set as
      negative. */
  function Value(h: Helper, bits: nat): (v: int)
    ensures h.IsSigned() ==> 0 - h.Half() <= v < h.Half()
    ensures !h.IsSigned() ==> 0 <= v < h.Modulus()
    ensures bits < h.Modulus() && (!h.IsSigned() || bits < h.Half()) ==> v == bits
    ensures bits < h.Modulus() && h.IsSigned() && bits >= h.Half() ==> v == bits - h.Modulus()
  {
    var m := h.Modulus();
    if bits < m then
      ModSmall(bits, m);
      if h.IsSigned() && bits >= h.Half() then bits - m else bits
    else
      var b := bits % m;
      if h.IsSigned() && b >= h.Half() then b - m else b
  }

  /** Bits above the helper's width are never read: a key reads as its
      pattern modulo 2^width. */
  lemma ValueReadsOwnWidth(h: Helper, bits: nat)
    ensures Value(h, bits) == Value(h, bits % h.Modulus())
  {
    var m := h.Modulus();
    var b := bits % m;
    assert 0 <= b < m;
    ModSmall(b, m);
    if bits < m {
      ModSmall(bits, m);
      assert b == bits;
    }
  }

  /** Three-way comparison returning exactly -1, 0 or +1. */
  function ThreeWay(lhs: int, rhs: int): (r: int)
    ensures r == -1 || r == 0 || r == 1
    ensures r == -1 <==> lhs < rhs
    ensures r == 0 <==> lhs == rhs
    ensures r == 1 <==> lhs > rhs
  {
    if lhs < rhs then -1 else if lhs > rhs then 1 else 0
  }

  /** collect_c_fn_cmp_{int,uint}{16,32,64}_: compare the two keys as the
      helper's integer type. */
  function HelperCmp(h: Helper, lhs: nat, rhs: nat): (r: int)
    ensures r == -1 || r == 0 || r == 1
    ensures r < 0 <==> Value(h, lhs) < Value(h, rhs)
    ensures r == 0 <==> Value(h, lhs) == Value(h, rhs)
  {
    ThreeWay(Value(h, lhs), Value(h, rhs))
  }

  /** The public sized wrappers collect_c_fn_cmp_int16 ... _uint64: they
      assert that el_size is non-zero and equals the type's size, then call
      the helper of the same type. */
  function CmpSized(h: Helper, lhs: nat, rhs: nat, elSize: nat): (r: int)
    requires elSize != 0 && elSize == h.Bytes()
    requires lhs < h.Modulus() && rhs < h.Modulus()
    ensures r == -1 || r == 0 || r == 1
    ensures !h.IsSigned() ==> (r < 0 <==> lhs < rhs) && (r > 0 <==> lhs > rhs)
    ensures h.IsSigned() ==> (r < 0 <==> Value(h, lhs) < Value(h, rhs)) && (r > 0 <==> Value(h, lhs) > Value(h, rhs))
    ensures r == 0 <==> lhs == rhs
  {
    HelperCmp(h, lhs, rhs)
  }

  /** The C built-in integer types with a stock comparator, at their LP64 widths. */
  datatype BuiltinType = Short | Int | Long | LLong | UShort | UInt | ULong | ULLong {

    function SizeOf(): nat {
      match this
      case Short | UShort => 2
      case Int | UInt => 4
      case Long | LLong | ULong | ULLong => 8
    }

    predicate IsUnsigned() {
      UShort? || UInt? || ULong? || ULLong?
    }
  }

  /** CLC_INTERNAL_SIGNED_SELECT_: 8 bytes -> int64, 4 -> int32, else int16. */
  function SignedSelect(n: nat): (h: Helper)
    ensures h.IsSigned()
    ensures (n == 2 || n == 4 || n == 8) ==> h.Bytes() == n
    ensures n != 4 && n != 8 ==> h.Bytes() == 2
  {
    if n == 8 then Int64 else if n == 4 then Int32 else Int16
  }

  /** CLC_INTERNAL_UNSIGNED_SELECT_: defined beside the signed selector but
      never used by the built-in dispatch. */
  function UnsignedSelect(n: nat): (h: Helper)
    ensures !h.IsSigned()
    ensures (n == 2 || n == 4 || n == 8) ==> h.Bytes() == n
    ensures n != 4 && n != 8 ==> h.Bytes() == 2
  {
    if n == 8 then UInt64 else if n == 4 then UInt32 else UInt16
  }

  /** The helper the built-in dispatch picks for each type, as written:
      every type, signed or not, goes through the signed selector. */
  function BuiltinHelperAsWritten(t: BuiltinType): (h: Helper)
    ensures h.Bytes() == t.SizeOf()
    ensures h.IsSigned()
  {
    SignedSelect(t.SizeOf())
  }

  /** collect_c_fn_cmp_{short,...,ullong} as written: every type, unsigned
      ones included, is ordered by the two's-complement value of its width. */
  function CmpBuiltinAsWritten(t: BuiltinType, lhs: nat, rhs: nat, elSize: nat): (r: int)
    requires elSize != 0 && elSize == t.SizeOf()
    ensures r == -1 || r == 0 || r == 1
    ensures r < 0 <==> Value(SignedSelect(t.SizeOf()), lhs) < Value(SignedSelect(t.SizeOf()), rhs)
    ensures r > 0 <==> Value(SignedSelect(t.SizeOf()), lhs) > Value(SignedSelect(t.SizeOf()), rhs)
    ensures lhs < SignedSelect(t.SizeOf()).Modulus() && rhs < SignedSelect(t.SizeOf()).Modulus() ==>
      (r == 0 <==> lhs == rhs)
  {
    var h := BuiltinHelperAsWritten(t);
    if lhs < h.Modulus() && rhs < h.Modulus() then
      EqualOnlyWhenIdentical(h, lhs, rhs);
      HelperCmp(h, lhs, rhs)
    else
      HelperCmp(h, lhs, rhs)
  }

  /** With the unsigned types dispatched as written, an unsigned short
      holding 0xFFFF (65535) compares LESS than one holding 0. */
  lemma UnsignedBuiltinComparesSigned()
    ensures CmpBuiltinAsWritten(UShort, 0xFFFF, 0, 2) == -1
    ensures CmpBuiltinAsWritten(UInt, 0xFFFF_FFFF, 0, 4) == -1
    ensures CmpBuiltinAsWritten(ULLong, 0xFFFF_FFFF_FFFF_FFFF, 1, 8) == -1
  {
    assert Value(Int16, 0xFFFF) == -1;
    assert Value(Int32, 0xFFFF_FFFF) == -1;
    assert Value(Int64, 0xFFFF_FFFF_FFFF_FFFF) == -1;
  }

  /** The evidently intended dispatch: unsigned types use the unsigned selector. */
  function BuiltinHelper(t: BuiltinType): (h: Helper)
    ensures h.Bytes() == t.SizeOf()
    ensures h.IsSigned() <==> !t.IsUnsigned()
  {
    if t.IsUnsigned() then UnsignedSelect(t.SizeOf()) else SignedSelect(t.SizeOf())
  }

  /** Corrected collect_c_fn_cmp_{short,...,ullong}: unsigned types order by
      their unsigned value, signed types by their two's-complement value. */
  function CmpBuiltin(t: BuiltinType, lhs: nat, rhs: nat, elSize: nat): (r: int)
    requires elSize != 0 && elSize == t.SizeOf()
    requires lhs < BuiltinHelper(t).Modulus() && rhs < BuiltinHelper(t).Modulus()
    ensures r == -1 || r == 0 || r == 1
    ensures t.IsUnsigned() ==> (r < 0 <==> lhs < rhs) && (r > 0 <==> lhs > rhs)
    ensures !t.IsUnsigned() ==>
      (r < 0 <==> Value(BuiltinHelper(t), lhs) < Value(BuiltinHelper(t), rhs))
      && (r > 0 <==> Value(BuiltinHelper(t), lhs) > Value(BuiltinHelper(t), rhs))
    ensures r == 0 <==> lhs == rhs
  {
    HelperCmp(BuiltinHelper(t), lhs, rhs)
  }

  /** The signed built-in types are unaffected: both dispatches agree. */
  lemma SignedBuiltinsUnchanged(t: BuiltinType, lhs: nat, rhs: nat)
    requires !t.IsUnsigned()
    ensures CmpBuiltinAsWritten(t, lhs, rhs, t.SizeOf()) == HelperCmp(BuiltinHelper(t), lhs, rhs)
  {
  }

  /** Every helper, seen as a comparator over key bit patterns, obeys the
      laws the tree-map requires of a comparator. */
  lemma HelperIsTotalOrder(h: Helper)
    ensures IsTotalOrder((a: nat, b: nat) => HelperCmp(h, a, b))
  {
  }

  /** Swapping the operands negates the result exactly (not only its sign). */
  lemma Antisymmetric(h: Helper, a: nat, b: nat)
    ensures HelperCmp(h, a, b) == -HelperCmp(h, b, a)
  {
  }

  /** Within the helper's width, comparing 0 means the patterns are identical,
      so distinct keys never collapse into one tree node. */
  lemma EqualOnlyWhenIdentical(h: Helper, a: nat, b: nat)
    requires a < h.Modulus() && b < h.Modulus()
    ensures HelperCmp(h, a, b) == 0 <==> a == b
  {
  }
}
