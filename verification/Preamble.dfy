/**
  The packet preamble's packed size word: a size and a 4-bit topic variant sharing 32 bits.
  Masks of the source are written as quotients and remainders of powers of two.
*/
module Preamble {

  const MAGIC: nat := 0x56444E54
  const PREAMBLE_BYTES: nat := 24
  const TOP_BIT: nat := 0x8000_0000
  const VARIANT_UNIT: nat := 0x0800_0000

  type Word = w: nat | w < 0x1_0000_0000

  predicate HasVariant(w: Word) {
    w >= TOP_BIT
  }

  function Size(w: Word): nat {
    if HasVariant(w) then w % VARIANT_UNIT else w % TOP_BIT
  }

  function Variant(w: Word): nat {
    if HasVariant(w) then w / VARIANT_UNIT % 16 else 0
  }

  /** What setSize asserts of its argument. */
  predicate SizeAllowed(w: Word, n: nat) {
    n < if HasVariant(w) then 0x07FF_FFFF else 0x7FFF_FFFF
  }

  /** What setVariant asserts: a large size leaves no room for a variant. */
  predicate VariantAllowed(w: Word, v: nat) {
    v != 0 && !HasVariant(w) ==> w % TOP_BIT < 0x07FF_FFFF
  }

  function WithSize(w: Word, n: nat): Word {
    if HasVariant(w) then w / VARIANT_UNIT * VARIANT_UNIT + n % VARIANT_UNIT else n % TOP_BIT
  }

  /** The argument is the source's uint8_t; only its low four bits are kept. */
  function WithVariant(w: Word, v: nat): Word
    requires v < 256
  {
    if v == 0 then
      if HasVariant(w) then w % VARIANT_UNIT else w
    else
      TOP_BIT + v % 16 * VARIANT_UNIT + (if HasVariant(w) then Size(w) else w % VARIANT_UNIT)
  }

  lemma SetSizeIsRegister(w: Word, n: nat)
    requires SizeAllowed(w, n)
    ensures Size(WithSize(w, n)) == n && Variant(WithSize(w, n)) == Variant(w)
    ensures WithSize(WithSize(w, n), n) == WithSize(w, n)
    ensures HasVariant(WithSize(w, n)) == HasVariant(w)
  {
    if HasVariant(w) {
      assert w / VARIANT_UNIT >= 16;
      assert WithSize(w, n) / VARIANT_UNIT == w / VARIANT_UNIT;
    }
  }

  lemma SetVariantIsRegister(w: Word, v: nat)
    requires v < 256 && VariantAllowed(w, v)
    ensures Size(WithVariant(w, v)) == Size(w)
    ensures Variant(WithVariant(w, v)) == v % 16
  {
    VariantReadsBack(w, v);
    if v != 0 {
      assert Size(w) < VARIANT_UNIT;
    }
  }

  /** The variant reads back even where the size does not. */
  lemma VariantReadsBack(w: Word, v: nat)
    requires v < 256
    ensures Variant(WithVariant(w, v)) == v % 16
  {
    if v != 0 {
      assert WithVariant(w, v) / VARIANT_UNIT == 16 + v % 16;
    }
  }

  datatype Update = SetSize(n: nat) | SetVariant(v: nat)

  function Apply(w: Word, u: Update): Word
    requires u.SetVariant? ==> u.v < 256
  {
    match u
    case SetSize(n) => WithSize(w, n)
    case SetVariant(v) => WithVariant(w, v)
  }

  predicate Allowed(w: Word, u: Update) {
    match u
    case SetSize(n) => SizeAllowed(w, n)
    case SetVariant(v) => v <= 15 && VariantAllowed(w, v)
  }

  /** Every update of the run meets the assert it would hit, in turn. */
  predicate RunAllowed(w: Word, us: seq<Update>)
    decreases us
  {
    us == [] || (Allowed(w, us[0]) && RunAllowed(Apply(w, us[0]), us[1..]))
  }

  function Run(w: Word, us: seq<Update>): Word
    requires RunAllowed(w, us)
    decreases us
  {
    if us == [] then w else Run(Apply(w, us[0]), us[1..])
  }

  /** The last size written by the run, or the size it started with. */
  function LastSize(start: nat, us: seq<Update>): nat
    decreases us
  {
    if us == [] then start else LastSize(if us[0].SetSize? then us[0].n else start, us[1..])
  }

  function LastVariant(start: nat, us: seq<Update>): nat
    decreases us
  {
    if us == [] then start else LastVariant(if us[0].SetVariant? then us[0].v else start, us[1..])
  }

  /** Over any run the size word is two independent registers. */
  lemma {:induction false} TwoRegisters(w: Word, us: seq<Update>)
    requires RunAllowed(w, us)
    ensures Size(Run(w, us)) == LastSize(Size(w), us)
    ensures Variant(Run(w, us)) == LastVariant(Variant(w), us)
    decreases us
  {
    if us != [] {
      match us[0] {
        case SetSize(n) => SetSizeIsRegister(w, n);
        case SetVariant(v) => SetVariantIsRegister(w, v);
      }
      TwoRegisters(Apply(w, us[0]), us[1..]);
    }
  }

  /** The preamble's size field as an object the setters overwrite. */
  class SizeField {
    var word: Word

    constructor ()
      ensures word == 0
    {
      word := 0;
    }

    method SetSize(n: nat)
      requires SizeAllowed(word, n)
      modifies this
      ensures word == Apply(old(word), Update.SetSize(n))
      ensures Size(word) == n && Variant(word) == Variant(old(word))
    {
      SetSizeIsRegister(word, n);
      if HasVariant(word) {
        word := word - word % VARIANT_UNIT + n % VARIANT_UNIT;
      } else {
        word := n % TOP_BIT;
      }
    }

    method SetVariant(v: nat)
      requires v < 256 && VariantAllowed(word, v)
      modifies this
      ensures word == Apply(old(word), Update.SetVariant(v))
      ensures Size(word) == Size(old(word)) && Variant(word) == v % 16
    {
      SetVariantIsRegister(word, v);
      if v == 0 {
        if !HasVariant(word) { return; }
        word := word % VARIANT_UNIT;
      } else {
        var top := v % 16 * VARIANT_UNIT;
        if HasVariant(word) {
          word := TOP_BIT + top + Size(word);
        } else {
          word := TOP_BIT + top + word % VARIANT_UNIT;
        }
      }
    }
  }
}
