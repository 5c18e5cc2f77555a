/**
 * Bitfields packed least-significant-bit first into an unsigned integer word.
 *
 * A bitfield struct such as `struct { uint8_t HeaderLength : 4; uint8_t Version : 4; }`
 * is described by its list of widths in declaration order, here `[4, 4]`. The first
 * declared field occupies the lowest bits of the storage word, the next one the bits
 * directly above it, and so on. Reading a field shifts the word right past the
 * fields below it and masks it to the field's width; packing a struct adds each
 * field, shifted left to its position.
 */
module Bitfields {

  /** 2 to the power `n`. */
  function Pow2(n: nat): (p: nat)
    ensures p > 0
  {
    if n == 0 then 1 else 2 * Pow2(n - 1)
  }

  /** `word >> n`. */
  function Shr(word: nat, n: nat): nat
  {
    DivNonNegative(word, Pow2(n));
    word / Pow2(n)
  }

  /** `word & ((1 << n) - 1)`: the low `n` bits of `word`. */
  function Mask(word: nat, n: nat): (low: nat)
    ensures low < Pow2(n)
  {
    word % Pow2(n)
  }

  /** Position of the lowest bit of field `i`: the sum of the widths declared before it. */
  function Offset(widths: seq<nat>, i: nat): nat
    requires i <= |widths|
  {
    if i == 0 then 0 else widths[0] + Offset(widths[1..], i - 1)
  }

  /** Number of bits the whole list of fields occupies. */
  function Width(widths: seq<nat>): nat
  {
    Offset(widths, |widths|)
  }

  /** Field `i` of `word`: shift right by the field's offset, then mask to its width. */
  function Field(word: nat, widths: seq<nat>, i: nat): (f: nat)
    requires i < |widths|
    ensures f < Pow2(widths[i])
  {
    Mask(Shr(word, Offset(widths, i)), widths[i])
  }

  /** One value per field, each small enough for its width. */
  predicate Fits(fields: seq<nat>, widths: seq<nat>)
  {
    && |fields| == |widths|
    && forall i :: 0 <= i < |widths| ==> fields[i] < Pow2(widths[i])
  }

  /** Every field of `word`, in declaration order: take the lowest field, shift it out, repeat. */
  function Unpack(word: nat, widths: seq<nat>): (fields: seq<nat>)
    ensures |fields| == |widths|
    decreases widths
  {
    if widths == [] then []
    else [Mask(word, widths[0])] + Unpack(Shr(word, widths[0]), widths[1..])
  }

  /** The word whose fields are `fields`; it fits in the bits the layout spans. */
  function Pack(fields: seq<nat>, widths: seq<nat>): (word: nat)
    requires Fits(fields, widths)
    ensures word < Pow2(Width(widths))
  {
    if widths == [] then 0
    else
      var rest := Pack(fields[1..], widths[1..]);
      Pow2Add(widths[0], Width(widths[1..]));
      MulAddBound(fields[0], Pow2(widths[0]), rest, Pow2(Width(widths[1..])));
      fields[0] + Pow2(widths[0]) * rest
  }

  /**
   * Writing field `i` of `word` (a C assignment to one unsigned bitfield): the fields
   * below it are kept, field `i` becomes `v` reduced modulo 2 to the power of its width,
   * as the conversion to the bitfield's type does, and the bits above it are kept.
   */
  function SetField(word: nat, widths: seq<nat>, i: nat, v: nat): (w: nat)
    requires i < |widths|
    ensures word < Pow2(Width(widths)) ==> w < Pow2(Width(widths))
    decreases i
  {
    var high := Shr(word, widths[0]);
    ShrBound(word, widths[0], Width(widths[1..]));
    if i == 0 then
      JoinBound(word, widths, Mask(v, widths[0]), high);
      Mask(v, widths[0]) + Pow2(widths[0]) * high
    else
      var rest := SetField(high, widths[1..], i - 1, v);
      JoinBound(word, widths, Mask(word, widths[0]), rest);
      Mask(word, widths[0]) + Pow2(widths[0]) * rest
  }

  /** A low field below the bits above it, for a word that fits its layout. */
  lemma JoinBound(word: nat, widths: seq<nat>, low: nat, above: nat)
    requires widths != [] && low < Pow2(widths[0])
    requires word < Pow2(Width(widths)) ==> above < Pow2(Width(widths[1..]))
    ensures Pow2(widths[0]) * above >= 0
    ensures word < Pow2(Width(widths)) ==> low + Pow2(widths[0]) * above < Pow2(Width(widths))
  {
    MulLe(Pow2(widths[0]), 0, above);
    assert Width(widths) == widths[0] + Width(widths[1..]);
    Pow2Add(widths[0], Width(widths[1..]));
    if word < Pow2(Width(widths)) {
      MulAddBound(low, Pow2(widths[0]), above, Pow2(Width(widths[1..])));
    }
  }

  /** Reading back any field of a packed word gives the value that was packed. */
  lemma {:induction false} FieldOfPack(fields: seq<nat>, widths: seq<nat>, i: nat)
    requires Fits(fields, widths) && i < |widths|
    ensures Field(Pack(fields, widths), widths, i) == fields[i]
  {
    var p := Pow2(widths[0]);
    var rest := Pack(fields[1..], widths[1..]);
    var word := Pack(fields, widths);
    assert word == fields[0] + p * rest;
    DivModUnique(word, p, rest, fields[0]);
    if i > 0 {
      FieldOfTail(word, widths, i);
      FieldOfPack(fields[1..], widths[1..], i - 1);
    }
  }

  /** Unpacking yields exactly the fields as read one by one. */
  lemma {:induction false} UnpackIsFields(word: nat, widths: seq<nat>, i: nat)
    requires i < |widths|
    ensures Unpack(word, widths)[i] == Field(word, widths, i)
    decreases i
  {
    if i > 0 {
      FieldOfTail(word, widths, i);
      UnpackIsFields(Shr(word, widths[0]), widths[1..], i - 1);
    }
  }

  /** Every unpacked field is within its width. */
  lemma UnpackFits(word: nat, widths: seq<nat>)
    ensures Fits(Unpack(word, widths), widths)
  {
    forall i | 0 <= i < |widths|
      ensures Unpack(word, widths)[i] < Pow2(widths[i])
    {
      UnpackIsFields(word, widths, i);
    }
  }

  /** Packing the fields of a word that fits the layout reproduces the word. */
  lemma {:induction false} PackOfUnpack(word: nat, widths: seq<nat>)
    requires word < Pow2(Width(widths))
    ensures Fits(Unpack(word, widths), widths)
    ensures Pack(Unpack(word, widths), widths) == word
    decreases widths
  {
    UnpackFits(word, widths);
    if widths == [] {
      assert Pow2(Width(widths)) == 1;
    } else {
      var p := Pow2(widths[0]);
      var high := Shr(word, widths[0]);
      var fields := Unpack(word, widths);
      assert fields[1..] == Unpack(high, widths[1..]);
      assert Width(widths) == widths[0] + Width(widths[1..]);
      Pow2Add(widths[0], Width(widths[1..]));
      DivBound(word, p, Pow2(Width(widths[1..])));
      PackOfUnpack(high, widths[1..]);
      assert Pack(fields, widths) == Mask(word, widths[0]) + p * high;
      MaskPlusShr(word, widths[0]);
    }
  }

  /** The fields read from a word that fits its layout pack back into that word. */
  lemma RepackFields(word: nat, widths: seq<nat>, fields: seq<nat>)
    requires word < Pow2(Width(widths)) && |fields| == |widths|
    requires forall i :: 0 <= i < |widths| ==> fields[i] == Field(word, widths, i)
    ensures Fits(fields, widths) && Pack(fields, widths) == word
  {
    forall i | 0 <= i < |widths|
      ensures Unpack(word, widths)[i] == fields[i]
    {
      UnpackIsFields(word, widths, i);
    }
    assert Unpack(word, widths) == fields;
    PackOfUnpack(word, widths);
  }

  /** A word that fits its layout is determined by its fields: the fields cover all its bits. */
  lemma FieldsDetermineWord(w1: nat, w2: nat, widths: seq<nat>)
    requires w1 < Pow2(Width(widths)) && w2 < Pow2(Width(widths))
    requires forall i :: 0 <= i < |widths| ==> Field(w1, widths, i) == Field(w2, widths, i)
    ensures w1 == w2
  {
    forall i | 0 <= i < |widths|
      ensures Unpack(w1, widths)[i] == Unpack(w2, widths)[i]
    {
      UnpackIsFields(w1, widths, i);
      UnpackIsFields(w2, widths, i);
    }
    assert Unpack(w1, widths) == Unpack(w2, widths);
    PackOfUnpack(w1, widths);
    PackOfUnpack(w2, widths);
  }

  /**
   * Writing field `i` changes that field to `v` modulo 2 to the power of its width and
   * leaves every other field as it was.
   */
  lemma {:induction false} FieldOfSetField(word: nat, widths: seq<nat>, i: nat, v: nat, j: nat)
    requires i < |widths| && j < |widths|
    ensures Field(SetField(word, widths, i, v), widths, j)
            == if j == i then v % Pow2(widths[i]) else Field(word, widths, j)
    decreases i
  {
    var p := Pow2(widths[0]);
    var high := Shr(word, widths[0]);
    var w := SetField(word, widths, i, v);
    var low := if i == 0 then Mask(v, widths[0]) else Mask(word, widths[0]);
    var above := if i == 0 then high else SetField(high, widths[1..], i - 1, v);
    assert w == low + p * above;
    DivModUnique(w, p, above, low);
    if j == 0 {
      assert Offset(widths, 0) == 0 && Pow2(0) == 1;
      assert Shr(w, 0) == w && Shr(word, 0) == word;
    } else {
      FieldOfTail(w, widths, j);
      FieldOfTail(word, widths, j);
      if i > 0 {
        FieldOfSetField(high, widths[1..], i - 1, v, j - 1);
      }
    }
  }

  /** Fields above the first are the fields of the word with the first one shifted out. */
  lemma FieldOfTail(word: nat, widths: seq<nat>, i: nat)
    requires 0 < i < |widths|
    ensures Field(word, widths, i) == Field(Shr(word, widths[0]), widths[1..], i - 1)
  {
    ShrShr(word, widths[0], Offset(widths[1..], i - 1));
  }

  /** A word is its low `n` bits plus its high bits shifted back into place. */
  lemma MaskPlusShr(word: nat, n: nat)
    ensures word == Mask(word, n) + Pow2(n) * Shr(word, n)
  {
  }

  /** Shifting out the low `a` bits of an `a + b`-bit word leaves a `b`-bit word. */
  lemma ShrBound(word: nat, a: nat, b: nat)
    ensures word < Pow2(a + b) ==> Shr(word, a) < Pow2(b)
  {
    Pow2Add(a, b);
    if word < Pow2(a + b) {
      DivBound(word, Pow2(a), Pow2(b));
    }
  }

  lemma ShrShr(word: nat, a: nat, b: nat)
    ensures Shr(Shr(word, a), b) == Shr(word, a + b)
  {
    Pow2Add(a, b);
    DivDiv(word, Pow2(a), Pow2(b));
  }

  lemma {:induction false} Pow2Add(a: nat, b: nat)
    ensures Pow2(a + b) == Pow2(a) * Pow2(b)
  {
    if a > 0 {
      Pow2Add(a - 1, b);
    }
  }

  lemma MulLe(p: nat, x: nat, y: nat)
    requires x <= y
    ensures p * x <= p * y
  {
  }

  lemma MulAtLeast(d: int, k: int)
    requires d > 0 && k >= 1
    ensures d * k >= d
  {
  }

  lemma MulAddBound(f: nat, p: nat, r: nat, q: nat)
    requires f < p && r < q
    ensures f + p * r < p * q
  {
    MulLe(p, r, q - 1);
    assert p * (q - 1) == p * q - p;
  }

  /** Quotient and remainder are unique. */
  lemma DivModUnique(w: int, d: int, q: int, r: int)
    requires d > 0 && 0 <= r < d && w == d * q + r
    ensures w / d == q && w % d == r
  {
    var q', r' := w / d, w % d;
    assert w == d * q' + r';
    assert d * (q - q') == r' - r by {
      assert d * (q - q') == d * q - d * q';
    }
    if q > q' {
      MulAtLeast(d, q - q');
    } else if q < q' {
      MulAtLeast(d, q' - q);
    }
  }

  lemma DivNonNegative(w: nat, p: nat)
    requires p > 0
    ensures w / p >= 0
  {
  }

  lemma DivDiv(w: nat, p: nat, q: nat)
    requires p > 0 && q > 0
    ensures (w / p) / q == w / (p * q)
  {
    var a := w / p;
    var b := a / q;
    assert w == p * a + w % p;
    assert a == q * b + a % q;
    assert w == (p * q) * b + (p * (a % q) + w % p) by {
      assert p * a == p * (q * b) + p * (a % q);
      assert p * (q * b) == (p * q) * b;
    }
    MulLe(p, a % q, q - 1);
    assert p * (q - 1) == p * q - p;
    DivModUnique(w, p * q, b, p * (a % q) + w % p);
  }

  lemma DivBound(w: nat, p: nat, q: nat)
    requires p > 0 && w < p * q
    ensures w / p < q
  {
    assert w == p * (w / p) + w % p;
    if w / p >= q {
      MulLe(p, q, w / p);
    }
  }
}
