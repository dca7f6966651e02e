/** The `ElementType` flags of src/lupydMarkdown.ts and its `iterateTypes`,
    which visits flags from `Svg` (the largest) down to `Bold`. */
module ElementTypes {
  import opened TypeBits

  datatype ElementType =
    | Normal | Bold | Italic | Header | UnderLine | Code | Quote | Spoiler
    | HyperLink | Mention | HashTag | ImageLink | VideoLink | Svg

  /** The bit a member other than `Normal` occupies. */
  function Position(e: ElementType): nat
    requires e != Normal
  {
    match e
    case Bold => 0
    case Italic => 1
    case Header => 2
    case UnderLine => 3
    case Code => 4
    case Quote => 5
    case Spoiler => 6
    case HyperLink => 7
    case Mention => 8
    case HashTag => 9
    case ImageLink => 10
    case VideoLink => 11
    case Svg => 12
  }

  /** The numeric value of each enum member. */
  function Value(e: ElementType): nat {
    match e
    case Normal => 0
    case Bold => 1
    case Italic => 2
    case Header => 4
    case UnderLine => 8
    case Code => 16
    case Quote => 32
    case Spoiler => 64
    case HyperLink => 128
    case Mention => 256
    case HashTag => 512
    case ImageLink => 1024
    case VideoLink => 2048
    case Svg => 4096
  }

  /** `MAX_ELEMENT_TYPE = ElementType.Svg`. */
  const MaxElementType: nat := 4096

  /** `Normal` is 0, every other member is a single bit no larger than `Svg`,
      and no two members share a value. */
  lemma {:induction false} ValuesAreDistinctFlags(e: ElementType, f: ElementType)
    ensures e == Normal <==> Value(e) == 0
    ensures e != Normal ==> Value(e) == Pow2(Position(e)) && Position(e) <= 12
    ensures MaxElementType == Value(Svg) == Pow2(12)
    ensures Value(e) == Value(f) ==> e == f
  {
    assert Pow2(12) == 4096 by {
      assert Pow2(0) == 1;
      assert Pow2(4) == 16;
      assert Pow2(8) == 256;
    }
    if e != Normal {
      var k := Position(e);
      assert Pow2(k) == Value(e) by {
        assert Pow2(0) == 1;
        assert Pow2(4) == 16;
        assert Pow2(8) == 256;
      }
    }
  }

  /** `hasType(t, Normal)` holds for every mask, and `hasType(t, e)` for
      any other member holds exactly when `t` has that member's bit. */
  lemma HasTypeMeaning(t: nat, e: ElementType)
    ensures HasType(t, Value(Normal))
    ensures e != Normal ==> (HasType(t, Value(e)) <==> Bit(t, Position(e)))
  {
    assert And(t, 0) == 0;
    if e != Normal {
      ValuesAreDistinctFlags(e, e);
      HasFlag(t, Position(e));
    }
  }

  /** `iterateTypes(type)`: the flags of `type`, from `Svg` down to `Bold`,
      each once. */
  method IterateTypes(t: nat) returns (types: seq<nat>)
    ensures forall i :: 0 <= i < |types| ==> FlagOf(t, 12, types[i])
    ensures forall i, j :: 0 <= i < j < |types| ==> types[i] > types[j]
    ensures forall e :: e != Normal ==> (Value(e) in types <==> HasType(t, Value(e)))
    ensures Union(types) == And(t, 8191)
    ensures |types| <= 13
    ensures t == Value(Normal) ==> types == []
  {
    ValuesAreDistinctFlags(Svg, Svg);
    types := IterateTypesFrom(t, 12);
    forall e | e != Normal
      ensures Value(e) in types <==> HasType(t, Value(e))
    {
      ValuesAreDistinctFlags(e, e);
      HasTypeMeaning(t, e);
    }
    DescendNone(Pow2(12));
    assert Ones(13) == 8191 by {
      assert Ones(4) == 15;
      assert Ones(8) == 255;
    }
  }
}
