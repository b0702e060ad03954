/**
 * The cache keys of the newer operation interface: each key holds raw
 * pointers to its operands, the binary commutative ones in pointer order,
 * and a result slot that may be written only once.
 */
module CacheKeys {
  import opened Objects
  import K = Keys

  /** The input of a key; the constructor is the key's dynamic type. */
  datatype Input<V> =
    | MulIn(f: Ptr, g: Ptr)
    | PlusIn(f: Ptr, g: Ptr)
    | AntivIn(f: Ptr, g: Ptr)
    | IteIn(f: Ptr, g: Ptr, h: Ptr)
    | RestrIn(f: Ptr, x: nat, a: bool)
    | ComposeIn(f: Ptr, x: nat, g: Ptr)
    | HasConstIn(f: Ptr, c: V)
    | ReplaceIn(f: Ptr, a: bool)
    | SharpSatIn(f: Ptr)

  /** The products, sums and antivalences store their operands in pointer order. */
  function MulInput<V>(f: Ptr, g: Ptr): (i: Input<V>)
    requires f != Null && g != Null
    ensures i.MulIn? && i.f <= i.g && ((i.f, i.g) == (f, g) || (i.f, i.g) == (g, f))
  {
    var (a, b) := K.Ordered(f, g);
    MulIn(a, b)
  }

  function PlusInput<V>(f: Ptr, g: Ptr): (i: Input<V>)
    requires f != Null && g != Null
    ensures i.PlusIn? && i.f <= i.g && ((i.f, i.g) == (f, g) || (i.f, i.g) == (g, f))
  {
    var (a, b) := K.Ordered(f, g);
    PlusIn(a, b)
  }

  function AntivInput<V>(f: Ptr, g: Ptr): (i: Input<V>)
    requires f != Null && g != Null
    ensures i.AntivIn? && i.f <= i.g && ((i.f, i.g) == (f, g) || (i.f, i.g) == (g, f))
  {
    var (a, b) := K.Ordered(f, g);
    AntivIn(a, b)
  }

  /** Operands in either order give the same key. */
  lemma CommutativeInputs<V>(f: Ptr, g: Ptr)
    requires f != Null && g != Null
    ensures MulInput<V>(f, g) == MulInput<V>(g, f)
    ensures PlusInput<V>(f, g) == PlusInput<V>(g, f)
    ensures AntivInput<V>(f, g) == AntivInput<V>(g, f)
  {
  }

  /** What the constructors assert of their operands. */
  predicate Constructible<V>(i: Input<V>)
  {
    match i
    case MulIn(f, g) => f != Null && g != Null && f <= g
    case PlusIn(f, g) => f != Null && g != Null && f <= g
    case AntivIn(f, g) => f != Null && g != Null && f <= g
    case IteIn(f, g, h) => f != Null && g != Null && h != Null
    case RestrIn(f, _, _) => f != Null
    case ComposeIn(f, _, g) => f != Null && g != Null
    case HasConstIn(f, _) => f != Null
    case ReplaceIn(f, _) => f != Null
    case SharpSatIn(f) => f != Null
  }

  /** The dynamic type of a key. */
  function Kind<V>(i: Input<V>): nat
  {
    match i
    case MulIn(_, _) => 0 case PlusIn(_, _) => 1 case AntivIn(_, _) => 2 case IteIn(_, _, _) => 3
    case RestrIn(_, _, _) => 4 case ComposeIn(_, _, _) => 5 case HasConstIn(_, _) => 6
    case ReplaceIn(_, _) => 7 case SharpSatIn(_) => 8
  }

  /** The hash each key type computes from its stored input. */
  function InputHash<V>(hs: K.KeyHashing<V>, i: Input<V>): nat
  {
    match i
    case MulIn(f, g) => Mix(hs.ptr(f), hs.p1, hs.ptr(g), hs.p2)
    case PlusIn(f, g) => Mix(hs.ptr(f), hs.p1, hs.ptr(g), hs.p2)
    case AntivIn(f, g) => Mix(hs.ptr(f), hs.p1, hs.ptr(g), hs.p2)
    case IteIn(f, g, h) => (hs.ptr(f) * hs.p1 + hs.ptr(g) * hs.p2 + hs.ptr(h) * hs.p3) % Word
    case RestrIn(f, x, a) => Mix(hs.ptr(f) + hs.var_(x), hs.p1, hs.flag(a), hs.p2)
    case ComposeIn(f, x, g) => Mix(hs.ptr(f) + hs.var_(x), hs.p1, hs.ptr(g), hs.p2)
    case HasConstIn(f, c) => Mix(hs.ptr(f), hs.p1, hs.value(c), hs.p2)
    case ReplaceIn(f, a) => Mix(hs.ptr(f), hs.p1, hs.flag(a), hs.p2)
    case SharpSatIn(f) => hs.ptr(f)
  }

  /** The cache hash: the type's hash XOR the input hash. */
  function Hash<V>(hs: K.KeyHashing<V>, i: Input<V>): nat
  {
    K.Xor(hs.type_(Kind(i)), InputHash(hs, i))
  }

  /** Keys are equal when their types and stored inputs agree. */
  predicate Equals<V(==)>(l: Input<V>, r: Input<V>)
  {
    Kind(l) == Kind(r) && l == r
  }

  /**
   * Equal keys hash equally, and the ordered operands make the commutative
   * keys agree with the pointer-ordered hash of the older keys: the
   * products of f, g and of g, f land in the same bucket.
   */
  lemma HashConsistent<V>(hs: K.KeyHashing<V>, l: Input<V>, r: Input<V>, f: Ptr, g: Ptr)
    requires f != Null && g != Null
    ensures Equals(l, r) ==> Hash(hs, l) == Hash(hs, r)
    ensures Hash(hs, MulInput<V>(f, g)) == Hash(hs, MulInput<V>(g, f))
    ensures InputHash(hs, MulInput<V>(f, g)) == K.InputHashFixed(hs, K.Mul(f, g))
    ensures InputHash(hs, AntivInput<V>(f, g)) == K.InputHashFixed(hs, K.Antiv(f, g))
  {
    CommutativeInputs<V>(f, g);
  }

  /** A key whose result is an edge: products, sums, antivalences, ite, restriction, composition, replacement. */
  class EdgeOperation<V(==)> {
    const input: Input<V>
    var result: Ptr      // Null while no result is stored

    ghost predicate Valid()
      reads this
    {
      Constructible(input) && !input.HasConstIn? && !input.SharpSatIn?
    }

    constructor Mul(f: Ptr, g: Ptr)
      requires f != Null && g != Null
      ensures Valid() && input == MulInput(f, g) && result == Null
    {
      input := MulInput(f, g);
      result := Null;
    }

    constructor Plus(f: Ptr, g: Ptr)
      requires f != Null && g != Null
      ensures Valid() && input == PlusInput(f, g) && result == Null
    {
      input := PlusInput(f, g);
      result := Null;
    }

    constructor Antiv(f: Ptr, g: Ptr)
      requires f != Null && g != Null
      ensures Valid() && input == AntivInput(f, g) && result == Null
    {
      input := AntivInput(f, g);
      result := Null;
    }

    constructor Ite(f: Ptr, g: Ptr, h: Ptr)
      requires f != Null && g != Null && h != Null
      ensures Valid() && input == IteIn(f, g, h) && result == Null
    {
      input := IteIn(f, g, h);
      result := Null;
    }

    constructor Restr(f: Ptr, x: nat, a: bool)
      requires f != Null
      ensures Valid() && input == RestrIn(f, x, a) && result == Null
    {
      input := RestrIn(f, x, a);
      result := Null;
    }

    constructor Compose(f: Ptr, x: nat, g: Ptr)
      requires f != Null && g != Null
      ensures Valid() && input == ComposeIn(f, x, g) && result == Null
    {
      input := ComposeIn(f, x, g);
      result := Null;
    }

    constructor Replace(f: Ptr, a: bool)
      requires f != Null
      ensures Valid() && input == ReplaceIn(f, a) && result == Null
    {
      input := ReplaceIn(f, a);
      result := Null;
    }

    /** The stored result; only defined once one is stored. */
    function GetResult(): (r: Ptr)
      reads this
      requires result != Null
      ensures r != Null && r == result
    {
      result
    }

    /** Stores a result; a result is set at most once and is never null. */
    method SetResult(res: Ptr)
      requires res != Null && result == Null
      modifies this
      ensures result == res && GetResult() == res
    {
      result := res;
    }
  }

  /** The constant-search key: the result is an optional flag, so "not yet set" differs from false. */
  class HasConstOperation<V(==)> {
    const input: Input<V>
    var result: Option<bool>

    constructor (f: Ptr, c: V)
      requires f != Null
      ensures input == HasConstIn(f, c) && result == None
    {
      input := HasConstIn(f, c);
      result := None;
    }

    function GetResult(): (r: bool)
      reads this
      requires result.Some?
      ensures result == Some(r)
    {
      result.value
    }

    method SetResult(res: bool)
      requires result.None?
      modifies this
      ensures result == Some(res)
    {
      result := Some(res);
    }
  }

  /** The #SAT key: the result is a non-negative count; NaN, modelled as no value, marks it unset. */
  class SharpSatOperation<V(==)> {
    const input: Input<V>
    var res: Option<real>

    constructor (f: Ptr)
      requires f != Null
      ensures input == SharpSatIn(f) && res == None
    {
      input := SharpSatIn(f);
      res := None;
    }

    function GetResult(): (r: real)
      reads this
      requires res.Some?
      ensures res == Some(r)
    {
      res.value
    }

    method SetResult(r: real)
      requires r >= 0.0 && res.None?
      modifies this
      ensures res == Some(r) && GetResult() >= 0.0
    {
      res := Some(r);
    }
  }
}
