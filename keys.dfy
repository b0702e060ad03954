/**
 * Keys of the operation cache: the entry record of the cache (one record
 * type for every operation, told apart by an operation code) and the
 * operation keys (one key type per operation, told apart by their dynamic
 * type), with the equality and hash the cache uses.
 *
 * Hash values are words; the hashes of pointers, indices, flags, constants
 * and operation types are parameters. Bitwise XOR on words is defined here.
 */
module Keys {
  import opened Objects

  // -------------------------------------------------------------------------
  // Bitwise exclusive or of words

  function Xor(a: nat, b: nat): (r: nat)
    decreases a + b
  {
    if a == 0 then b
    else if b == 0 then a
    else 2 * Xor(a / 2, b / 2) + (if a % 2 == b % 2 then 0 else 1)
  }

  lemma XorBits(a: nat, b: nat)
    ensures Xor(a, b) / 2 == Xor(a / 2, b / 2)
    ensures Xor(a, b) % 2 == (a + b) % 2
  {
    if a == 0 {
      assert Xor(a / 2, b / 2) == b / 2;
    } else if b == 0 {
      assert Xor(a / 2, b / 2) == a / 2 by { XorZero(a / 2); }
    } else {
      var t := if a % 2 == b % 2 then 0 else 1;
      var m := Xor(a / 2, b / 2);
      assert Xor(a, b) == 2 * m + t;
      assert a + b == 2 * (a / 2 + b / 2) + a % 2 + b % 2;
    }
  }

  lemma XorZero(a: nat)
    ensures Xor(a, 0) == a && Xor(0, a) == a
  {
  }

  lemma {:induction false} XorComm(a: nat, b: nat)
    ensures Xor(a, b) == Xor(b, a)
    decreases a + b
  {
    if a != 0 && b != 0 {
      XorComm(a / 2, b / 2);
    }
  }

  lemma {:induction false} XorAssoc(a: nat, b: nat, c: nat)
    ensures Xor(Xor(a, b), c) == Xor(a, Xor(b, c))
    decreases a + b + c
  {
    var l, r := Xor(Xor(a, b), c), Xor(a, Xor(b, c));
    if a + b + c > 0 {
      XorBits(Xor(a, b), c);
      XorBits(a, b);
      XorBits(a, Xor(b, c));
      XorBits(b, c);
      if a != 0 || b != 0 || c != 0 {
        XorAssoc(a / 2, b / 2, c / 2);
      }
      assert l / 2 == r / 2;
      assert l % 2 == r % 2;
    }
  }

  lemma {:induction false} XorSelf(a: nat)
    ensures Xor(a, a) == 0
    decreases a
  {
    if a != 0 {
      XorSelf(a / 2);
    }
  }

  /** XOR by the same word is injective. */
  lemma XorCancel(t: nat, a: nat, b: nat)
    requires Xor(t, a) == Xor(t, b)
    ensures a == b
  {
    XorAssoc(t, t, a);
    XorAssoc(t, t, b);
    XorSelf(t);
    XorZero(a);
    XorZero(b);
  }

  /** Two XOR-ed components can change places. */
  lemma XorSwap(o: nat, a: nat, b: nat)
    ensures Xor(Xor(o, a), b) == Xor(Xor(o, b), a)
  {
    XorAssoc(o, a, b);
    XorAssoc(o, b, a);
    XorComm(a, b);
  }

  // -------------------------------------------------------------------------
  // Cache entries

  datatype OpCode = ADD | AND | COMPOSE | ITE | MUL | RESTR | SAT | XOR | MISC

  /** The underlying value of an operation code. */
  function Ordinal(op: OpCode): nat
  {
    match op
    case ADD => 0 case AND => 1 case COMPOSE => 2 case ITE => 3 case MUL => 4
    case RESTR => 5 case SAT => 6 case XOR => 7 case MISC => 8
  }

  /**
   * A cache entry: the operation, up to three operand edges, a variable and a
   * truth value; unused edges are null, an unused variable is -1 and an
   * unused truth value is absent.
   */
  datatype Entry = Entry(op: OpCode, f: Ptr, g: Ptr, h: Ptr, x: int, a: Option<bool>)

  const NoVar: int := -1

  /** The operations whose operands may be swapped. */
  predicate Commutative(op: OpCode)
  {
    op == ADD || op == AND || op == MUL || op == XOR
  }

  /** An entry as one of the constructors leaves it: the fields its operation uses are set, the rest default. */
  predicate Built(e: Entry)
  {
    && e.f != Null
    && (e.op == SAT ==> e.g == Null && e.h == Null && e.x == NoVar && e.a.None?)
    && (e.op == MISC ==> e.g == Null && e.h == Null && e.x == NoVar && e.a.Some?)
    && (Commutative(e.op) ==> e.g != Null && e.h == Null && e.x == NoVar && e.a.None?)
    && (e.op == ITE ==> e.g != Null && e.h != Null && e.x == NoVar && e.a.None?)
    && (e.op == COMPOSE ==> e.g != Null && e.h == Null && e.x >= 0 && e.a.None?)
    && (e.op == RESTR ==> e.g == Null && e.h == Null && e.x >= 0 && e.a.Some?)
  }

  function SatEntry(op: OpCode, f: Ptr): (e: Entry)
    requires op == SAT && f != Null
    ensures Built(e) && e.op == op && e.f == f
  {
    Entry(op, f, Null, Null, NoVar, None)
  }

  function MiscEntry(op: OpCode, f: Ptr, a: bool): (e: Entry)
    requires op == MISC && f != Null
    ensures Built(e) && e.op == op && e.f == f && e.a == Some(a)
  {
    Entry(op, f, Null, Null, NoVar, Some(a))
  }

  function BinaryEntry(op: OpCode, f: Ptr, g: Ptr): (e: Entry)
    requires Commutative(op) && f != Null && g != Null
    ensures Built(e) && e.op == op && e.f == f && e.g == g
  {
    Entry(op, f, g, Null, NoVar, None)
  }

  function IteEntry(op: OpCode, f: Ptr, g: Ptr, h: Ptr): (e: Entry)
    requires op == ITE && f != Null && g != Null && h != Null
    ensures Built(e) && e.op == op && e.f == f && e.g == g && e.h == h
  {
    Entry(op, f, g, h, NoVar, None)
  }

  function ComposeEntry(op: OpCode, f: Ptr, x: int, g: Ptr): (e: Entry)
    requires op == COMPOSE && f != Null && x >= 0 && g != Null
    ensures Built(e) && e.op == op && e.f == f && e.x == x && e.g == g
  {
    Entry(op, f, g, Null, x, None)
  }

  function RestrEntry(op: OpCode, f: Ptr, x: int, a: bool): (e: Entry)
    requires op == RESTR && f != Null && x >= 0
    ensures Built(e) && e.op == op && e.f == f && e.x == x && e.a == Some(a)
  {
    Entry(op, f, Null, Null, x, Some(a))
  }

  /**
   * Entry equality: different operations never match; the commutative
   * operations match with their operands in either order; the others
   * compare every field.
   */
  predicate EntryEq(l: Entry, r: Entry)
  {
    if l.op != r.op then false
    else if Commutative(l.op) then (l.f == r.f && l.g == r.g) || (l.f == r.g && l.g == r.f)
    else l == r
  }

  datatype EntryHashing = EntryHashing(code: nat -> nat, ptr: Ptr -> nat, var_: int -> nat, flag: Option<bool> -> nat)

  /** The entry hash: the XOR of the hashes of all six fields. */
  function EntryHash(hs: EntryHashing, e: Entry): nat
  {
    Xor(Xor(Xor(Xor(Xor(hs.code(Ordinal(e.op)), hs.ptr(e.f)), hs.ptr(e.g)), hs.ptr(e.h)), hs.var_(e.x)), hs.flag(e.a))
  }

  /** Entry equality is an equivalence relation that never relates different operations. */
  lemma EntryEqEquivalence(a: Entry, b: Entry, c: Entry)
    ensures EntryEq(a, a)
    ensures EntryEq(a, b) ==> EntryEq(b, a) && a.op == b.op
    ensures EntryEq(a, b) && EntryEq(b, c) ==> EntryEq(a, c)
  {
  }

  /** Commutative entries built from swapped operands are equal. */
  lemma EntrySwapEqual(op: OpCode, f: Ptr, g: Ptr)
    requires Commutative(op) && f != Null && g != Null
    ensures EntryEq(BinaryEntry(op, f, g), BinaryEntry(op, g, f))
    ensures f != g ==> BinaryEntry(op, f, g) != BinaryEntry(op, g, f)
  {
  }

  /**
   * The XOR hash does not depend on the order of the operands, so equal
   * entries, as the constructors build them, hash equally.
   */
  lemma EntryHashConsistent(hs: EntryHashing, l: Entry, r: Entry)
    requires Built(l) && Built(r) && EntryEq(l, r)
    ensures EntryHash(hs, l) == EntryHash(hs, r)
  {
    if Commutative(l.op) && l != r {
      assert l.f == r.g && l.g == r.f && l.h == r.h && l.x == r.x && l.a == r.a;
      XorSwap(hs.code(Ordinal(l.op)), hs.ptr(l.f), hs.ptr(l.g));
    }
  }

  // -------------------------------------------------------------------------
  // Operation keys

  /** The input of each operation; the constructor of each is its dynamic type. */
  datatype Key<V> =
    | Conj(f: Ptr, g: Ptr)
    | Antiv(f: Ptr, g: Ptr)
    | Mul(f: Ptr, g: Ptr)
    | Plus(f: Ptr, g: Ptr)
    | Ite(f: Ptr, g: Ptr, h: Ptr)
    | Restr(f: Ptr, x: int, a: bool)
    | Compose(f: Ptr, x: int, g: Ptr)
    | HasConst(f: Ptr, c: V)
    | Repl(f: Ptr, a: bool)
    | SharpSat(f: Ptr)

  /** What each key's constructor asserts: non-null operands and a non-negative variable. */
  predicate Constructible<V>(k: Key<V>)
  {
    match k
    case Conj(f, g) => f != Null && g != Null
    case Antiv(f, g) => f != Null && g != Null
    case Mul(f, g) => f != Null && g != Null
    case Plus(f, g) => f != Null && g != Null
    case Ite(f, g, h) => f != Null && g != Null && h != Null
    case Restr(f, x, _) => f != Null && x >= 0
    case Compose(f, x, g) => f != Null && x >= 0 && g != Null
    case HasConst(f, _) => f != Null
    case Repl(f, _) => f != Null
    case SharpSat(f) => f != Null
  }

  /** The dynamic type of a key. */
  function Kind<V>(k: Key<V>): nat
  {
    match k
    case Conj(_, _) => 0 case Antiv(_, _) => 1 case Mul(_, _) => 2 case Plus(_, _) => 3
    case Ite(_, _, _) => 4 case Restr(_, _, _) => 5 case Compose(_, _, _) => 6
    case HasConst(_, _) => 7 case Repl(_, _) => 8 case SharpSat(_) => 9
  }

  /** The keys whose operands match in either order. */
  predicate Symmetric<V>(k: Key<V>)
  {
    k.Conj? || k.Antiv? || k.Mul?
  }

  /** has_same_input of each key type, for two keys of the same type. */
  predicate SameInput<V(==)>(l: Key<V>, r: Key<V>)
    requires Kind(l) == Kind(r)
  {
    if Symmetric(l) then (l.f == r.f && l.g == r.g) || (l.f == r.g && l.g == r.f)
    else l == r
  }

  /** Two keys are equal when their dynamic types agree and so do their inputs. */
  predicate KeyEq<V(==)>(l: Key<V>, r: Key<V>)
  {
    Kind(l) == Kind(r) && SameInput(l, r)
  }

  datatype KeyHashing<!V> = KeyHashing(type_: nat -> nat, ptr: Ptr -> nat, var_: int -> nat, flag: bool -> nat,
                                        value: V -> nat, p1: nat, p2: nat, p3: nat)

  /** The hash each key type computes from its input. */
  function InputHash<V>(hs: KeyHashing<V>, k: Key<V>): nat
  {
    match k
    case Conj(f, g) => Mix(hs.ptr(f), hs.p1, hs.ptr(g), hs.p2)
    case Antiv(f, g) => Mix(hs.ptr(f), hs.p1, hs.ptr(g), hs.p2)
    case Mul(f, g) => Mix(hs.ptr(f), hs.p1, hs.ptr(g), hs.p2)
    case Plus(f, g) => Mix(hs.ptr(f), hs.p1, hs.ptr(g), hs.p2)
    case Ite(f, g, h) => (hs.ptr(f) * hs.p1 + hs.ptr(g) * hs.p2 + hs.ptr(h) * hs.p3) % Word
    case Restr(f, x, a) => Xor(Xor(hs.ptr(f), hs.var_(x)), hs.flag(a))
    case Compose(f, x, g) => Xor(Xor(hs.ptr(f), hs.var_(x)), hs.ptr(g))
    case HasConst(f, c) => (hs.ptr(f) + hs.value(c)) % Word
    case Repl(f, a) => Xor(hs.ptr(f), hs.flag(a))
    case SharpSat(f) => hs.ptr(f)
  }

  /** The cache hash: the type's hash XOR the input hash, so equal inputs of different operations differ. */
  function KeyHash<V>(hs: KeyHashing<V>, k: Key<V>): nat
  {
    Xor(hs.type_(Kind(k)), InputHash(hs, k))
  }

  /** Key equality is an equivalence relation that never relates keys of different types. */
  lemma KeyEqEquivalence<V>(a: Key<V>, b: Key<V>, c: Key<V>)
    ensures KeyEq(a, a)
    ensures KeyEq(a, b) ==> KeyEq(b, a) && Kind(a) == Kind(b)
    ensures KeyEq(a, b) && KeyEq(b, c) ==> KeyEq(a, c)
  {
  }

  /** Conjunction, antivalence and product keys match with swapped operands; sums do not. */
  lemma KeySwap<V>(f: Ptr, g: Ptr)
    ensures KeyEq<V>(Conj(f, g), Conj(g, f)) && KeyEq<V>(Antiv(f, g), Antiv(g, f)) && KeyEq<V>(Mul(f, g), Mul(g, f))
    ensures KeyEq<V>(Plus(f, g), Plus(g, f)) <==> f == g
  {
  }

  /** Keys of different types with equal input hashes hash differently when their type hashes differ. */
  lemma KeyHashSeparatesTypes<V>(hs: KeyHashing<V>, l: Key<V>, r: Key<V>)
    requires InputHash(hs, l) == InputHash(hs, r) && hs.type_(Kind(l)) != hs.type_(Kind(r))
    ensures KeyHash(hs, l) != KeyHash(hs, r)
  {
    var t1, t2, h := hs.type_(Kind(l)), hs.type_(Kind(r)), InputHash(hs, l);
    if Xor(t1, h) == Xor(t2, h) {
      XorComm(t1, h);
      XorComm(t2, h);
      XorCancel(h, t1, t2);
    }
  }

  /** For the key types whose equality is order-sensitive, equal keys hash equally. */
  lemma KeyHashConsistent<V>(hs: KeyHashing<V>, l: Key<V>, r: Key<V>)
    requires !Symmetric(l) && KeyEq(l, r)
    ensures KeyHash(hs, l) == KeyHash(hs, r)
  {
  }

  /** Two word sums that differ by a non-zero amount below the word size differ as words. */
  lemma WordsDiffer(a: nat, b: nat)
    requires a != b && a - b < Word && b - a < Word
    ensures a % Word != b % Word
  {
  }

  /**
   * The conjunction, antivalence and product keys match with their operands
   * swapped, but their hash f * p1 + g * p2 is not symmetric: with pointers
   * hashed to consecutive values and distinct multipliers, equal keys land
   * in different buckets, so the cache misses results it holds.
   */
  lemma SymmetricKeyHashCounterexample<V>(hs: KeyHashing<V>, f: Ptr, g: Ptr)
    requires hs.p1 < Word && hs.p2 < Word && hs.p1 != hs.p2
    requires hs.ptr(f) == 2 && hs.ptr(g) == 1
    ensures KeyEq<V>(Conj(f, g), Conj(g, f)) && KeyHash<V>(hs, Conj(f, g)) != KeyHash<V>(hs, Conj(g, f))
    ensures KeyEq<V>(Antiv(f, g), Antiv(g, f)) && KeyHash<V>(hs, Antiv(f, g)) != KeyHash<V>(hs, Antiv(g, f))
    ensures KeyEq<V>(Mul(f, g), Mul(g, f)) && KeyHash<V>(hs, Mul(f, g)) != KeyHash<V>(hs, Mul(g, f))
  {
    WordsDiffer(2 * hs.p1 + hs.p2, hs.p1 + 2 * hs.p2);
    var m1, m2 := Mix(2, hs.p1, 1, hs.p2), Mix(1, hs.p1, 2, hs.p2);
    assert m1 != m2;
    forall t: nat
      ensures Xor(t, m1) != Xor(t, m2)
    {
      if Xor(t, m1) == Xor(t, m2) {
        XorCancel(t, m1, m2);
      }
    }
  }

  /** The operand pair in pointer order, as the newer keys store it. */
  function Ordered(f: Ptr, g: Ptr): (r: (Ptr, Ptr))
    ensures r.0 <= r.1 && ((r.0 == f && r.1 == g) || (r.0 == g && r.1 == f))
  {
    if f < g then (f, g) else (g, f)
  }

  /** The corrected input hash: symmetric keys hash their operands in pointer order. */
  function InputHashFixed<V>(hs: KeyHashing<V>, k: Key<V>): nat
  {
    if Symmetric(k) then
      var (a, b) := Ordered(k.f, k.g);
      Mix(hs.ptr(a), hs.p1, hs.ptr(b), hs.p2)
    else InputHash(hs, k)
  }

  function KeyHashFixed<V>(hs: KeyHashing<V>, k: Key<V>): nat
  {
    Xor(hs.type_(Kind(k)), InputHashFixed(hs, k))
  }

  /** With the operands hashed in pointer order, equal keys of every type hash equally. */
  lemma KeyHashFixedConsistent<V>(hs: KeyHashing<V>, l: Key<V>, r: Key<V>)
    requires KeyEq(l, r)
    ensures KeyHashFixed(hs, l) == KeyHashFixed(hs, r)
  {
    if Symmetric(l) {
      assert Ordered(l.f, l.g) == Ordered(r.f, r.g);
    }
  }
}
