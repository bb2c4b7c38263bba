/** HashedSet: a set of strings that carries the exclusive or of its members' hashes. */
module HashedSets {
  import opened Collections
  import opened Words
  import HexPrinter

  /** A UTF-16 code unit, as charCodeAt returns it. */
  type CodeUnit = c: int | 0 <= c < 0x1_0000
  type Str = seq<CodeUnit>

  // ---------------------------------------------------------------- the string hash

  /** Sum of w * s[i] * m^(|s| - 1 - i). */
  function Terms(m: int, w: int, s: Str): int {
    if s == [] then 0 else w * s[0] * Pow(m, |s| - 1) + Terms(m, w, s[1..])
  }

  /** The polynomial hash, before any wrap-around. */
  function Poly(seed: int, m: int, w: int, s: Str): int {
    seed * Pow(m, |s|) + Terms(m, w, s)
  }

  datatype Hash64 = Hash64(high: Uint32, low: Uint32)

  function Djb2(s: Str): Hash64 {
    Hash64(ToUint32(Poly(5381, 33, 1, s)), ToUint32(Poly(5387, 65, 37, s)))
  }

  /** The seeds: the hash of nothing. With the concatenation law and PolyNext it fixes every other hash. */
  lemma Djb2Empty()
    ensures Djb2([]) == Hash64(5381, 5387)
  {
    assert Pow(33, 0) == 1 && Pow(65, 0) == 1;
  }

  lemma {:induction false} PowAdd(m: int, a: nat, b: nat)
    ensures Pow(m, a + b) == Pow(m, a) * Pow(m, b)
  {
    if a > 0 {
      PowAdd(m, a - 1, b);
      assert m * (Pow(m, a - 1) * Pow(m, b)) == (m * Pow(m, a - 1)) * Pow(m, b);
    }
  }

  lemma Distribute(c: int, p: int, b: int, q: int)
    ensures c * (p * q) + b * q == (c * p + b) * q
  {
  }

  lemma {:induction false} TermsConcat(m: int, w: int, s: Str, t: Str)
    ensures Terms(m, w, s + t) == Terms(m, w, s) * Pow(m, |t|) + Terms(m, w, t)
  {
    if s == [] {
      assert s + t == t;
    } else {
      TermsConcat(m, w, s[1..], t);
      assert (s + t)[1..] == s[1..] + t;
      PowAdd(m, |s| - 1, |t|);
      Distribute(w * s[0], Pow(m, |s| - 1), Terms(m, w, s[1..]), Pow(m, |t|));
    }
  }

  /** Concatenation law: hashing s + t is hashing t from where s left off. */
  lemma PolyConcat(seed: int, m: int, w: int, s: Str, t: Str)
    ensures Poly(seed, m, w, s + t) == Poly(Poly(seed, m, w, s), m, w, t)
  {
    TermsConcat(m, w, s, t);
    PowAdd(m, |s|, |t|);
    Distribute(seed, Pow(m, |s|), Terms(m, w, s), Pow(m, |t|));
  }

  /** The concatenation law holds of the wrapped words too: only the words of s matter. */
  lemma Djb2Concat(s: Str, t: Str)
    ensures Djb2(s + t).high == ToUint32(Poly(Djb2(s).high, 33, 1, t))
    ensures Djb2(s + t).low == ToUint32(Poly(Djb2(s).low, 65, 37, t))
  {
    PolyConcat(5381, 33, 1, s, t);
    PolyConcat(5387, 65, 37, s, t);
    SeedModulo(Poly(5381, 33, 1, s), 33, 1, t);
    SeedModulo(Poly(5387, 65, 37, s), 65, 37, t);
  }

  lemma SeedModulo(seed: int, m: int, w: int, t: Str)
    ensures ToUint32(Poly(seed, m, w, t)) == ToUint32(Poly(ToUint32(seed), m, w, t))
  {
    var q, p := seed / TWO32, Pow(m, |t|);
    assert seed * p == ToUint32(seed) * p + TWO32 * (q * p) by {
      assert seed == ToUint32(seed) + TWO32 * q;
      assert (ToUint32(seed) + TWO32 * q) * p == ToUint32(seed) * p + TWO32 * q * p;
    }
    SameWord(Poly(seed, m, w, t), Poly(ToUint32(seed), m, w, t), q * p);
  }

  lemma SameWord(x: int, y: int, k: int)
    requires x == y + TWO32 * k
    ensures x % TWO32 == y % TWO32
  {
  }

  lemma PolyNext(seed: int, m: int, w: int, s: Str, c: CodeUnit)
    ensures Poly(seed, m, w, s + [c]) == Poly(seed, m, w, s) * m + w * c
  {
    PolyConcat(seed, m, w, s, [c]);
    assert Pow(m, 1) == m;
    assert Terms(m, w, [c]) == w * c by {
      assert Pow(m, 0) == 1 && [c][1..] == [];
    }
  }

  /** One turn of the loop: shifting the wrapped word, adding, and wrapping again. */
  lemma LoopTurn(h: Int32, shifted: Int32, p: int, k: int, d: int)
    requires h == ToInt32(p) && shifted == ToInt32(h * k)
    ensures ToInt32(shifted + h + d) == ToInt32(p * (k + 1) + d)
  {
    var q: int := (p - h) / TWO32;
    assert p == h + TWO32 * q;
    var r: int := (h * k - shifted) / TWO32;
    assert h * k == shifted + TWO32 * r;
    assert p * (k + 1) + d == shifted + h + d + TWO32 * (r + q * (k + 1)) by {
      assert (h + TWO32 * q) * (k + 1) == h * k + h + TWO32 * (q * (k + 1));
    }
    SameWord(p * (k + 1) + d, shifted + h + d, r + q * (k + 1));
  }

  /** The loop of `_djb2Dual`. The sums are declared as safe integers: double arithmetic is exact. */
  method Djb2Dual(str: Str) returns (hash: Hash64)
    ensures hash == Djb2(str)
  {
    var high: Int32, low: Int32 := 5381, 5387;
    assert Pow(33, 0) == 1 && Pow(65, 0) == 1;
    for i := 0 to |str|
      invariant high == ToInt32(Poly(5381, 33, 1, str[..i]))
      invariant low == ToInt32(Poly(5387, 65, 37, str[..i]))
    {
      var unit: int := str[i];
      var highShifted, lowShifted := ToInt32(high * 32), ToInt32(low * 64);
      var highSum: SafeInt := highShifted as int + high as int + unit;
      var lowSum: SafeInt := lowShifted as int + low as int + unit * 37;
      assert str[..i + 1] == str[..i] + [unit];
      PolyNext(5381, 33, 1, str[..i], unit);
      PolyNext(5387, 65, 37, str[..i], unit);
      LoopTurn(high, highShifted, Poly(5381, 33, 1, str[..i]), 32, unit);
      LoopTurn(low, lowShifted, Poly(5387, 65, 37, str[..i]), 64, unit * 37);
      high, low := ToInt32(highSum), ToInt32(lowSum);
    }
    assert str[..|str|] == str;
    hash := Hash64(ToUint32(high), ToUint32(low));
  }

  // ---------------------------------------------------------------- the hash of a set

  /** The two stored words: signed, because `^=` leaves a signed result. */
  datatype WordPair = WordPair(high: Int32, low: Int32) {
    function With(h: Hash64): WordPair {
      WordPair(Xor(high, h.high), Xor(low, h.low))
    }

    function Plus(other: WordPair): WordPair {
      WordPair(Xor(high, other.high), Xor(low, other.low))
    }
  }

  const ZeroWords := WordPair(0, 0)

  /** Exclusive or of the hashes of all members, in some order. */
  ghost function SetHash(s: set<Str>): WordPair {
    if s == {} then ZeroWords
    else
      var x :| x in s;
      SetHash(s - {x}).With(Djb2(x))
  }

  lemma WithTwice(a: WordPair, h: Hash64)
    ensures a.With(h).With(h) == a
  {
    XorCancels(a.high, h.high);
    XorCancels(a.low, h.low);
  }

  lemma WithSwaps(a: WordPair, h: Hash64, g: Hash64)
    ensures a.With(h).With(g) == a.With(g).With(h)
  {
    XorAssociates(a.high, h.high, g.high);
    XorAssociates(a.high, g.high, h.high);
    XorCommutes(h.high, g.high);
    XorAssociates(a.low, h.low, g.low);
    XorAssociates(a.low, g.low, h.low);
    XorCommutes(h.low, g.low);
  }

  /** Any member may be taken out first: the order in which members are combined is irrelevant. */
  lemma {:induction false} SetHashPick(s: set<Str>, y: Str)
    requires y in s
    ensures SetHash(s) == SetHash(s - {y}).With(Djb2(y))
    decreases |s|
  {
    var x :| x in s && SetHash(s) == SetHash(s - {x}).With(Djb2(x));
    if x != y {
      SetHashPick(s - {x}, y);
      SetHashPick(s - {y}, x);
      assert s - {x} - {y} == s - {y} - {x};
      WithSwaps(SetHash(s - {x} - {y}), Djb2(y), Djb2(x));
    }
  }

  /** The words of a set of one: its member's hash, read as signed words. */
  lemma SetHashOne(x: Str)
    ensures SetHash({x}) == WordPair(ToInt32(Djb2(x).high), ToInt32(Djb2(x).low))
  {
    var h := Djb2(x);
    SetHashPick({x}, x);
    assert {x} - {x} == {};
    XorWithZero(h.high);
    XorWithZero(h.low);
  }

  ghost function Toggle(s: set<Str>, x: Str): set<Str> {
    if x in s then s - {x} else s + {x}
  }

  lemma SetHashToggle(s: set<Str>, x: Str)
    ensures SetHash(Toggle(s, x)) == SetHash(s).With(Djb2(x))
  {
    if x in s {
      SetHashPick(s, x);
      WithTwice(SetHash(s - {x}), Djb2(x));
    } else {
      SetHashPick(s + {x}, x);
      assert s + {x} - {x} == s;
    }
  }

  ghost function SymmetricDifference(a: set<Str>, b: set<Str>): set<Str> {
    (a - b) + (b - a)
  }

  lemma ToggleOneMember(a: set<Str>, b: set<Str>, x: Str)
    requires x in a
    ensures SymmetricDifference(a, b) == Toggle(SymmetricDifference(a - {x}, b), x)
  {
  }

  lemma PlusWith(a: WordPair, h: Hash64, b: WordPair)
    ensures a.With(h).Plus(b) == a.Plus(b).With(h)
  {
    XorAssociates(a.high, h.high, b.high);
    XorAssociates(a.high, b.high, h.high);
    XorCommutes(h.high, b.high);
    XorAssociates(a.low, h.low, b.low);
    XorAssociates(a.low, b.low, h.low);
    XorCommutes(h.low, b.low);
  }

  /** Homomorphism: the symmetric difference of two sets hashes to the exclusive or of their hashes. */
  lemma {:induction false} SetHashSymmetricDifference(a: set<Str>, b: set<Str>)
    ensures SetHash(SymmetricDifference(a, b)) == SetHash(a).Plus(SetHash(b))
    decreases |a|
  {
    if a == {} {
      assert SymmetricDifference(a, b) == b;
      XorZero(SetHash(b).high);
      XorZero(SetHash(b).low);
      XorCommutes(0, SetHash(b).high);
      XorCommutes(0, SetHash(b).low);
    } else {
      var x :| x in a;
      var rest := a - {x};
      SetHashSymmetricDifference(rest, b);
      SetHashPick(a, x);
      ToggleOneMember(a, b, x);
      SetHashToggle(SymmetricDifference(rest, b), x);
      PlusWith(SetHash(rest), Djb2(x), SetHash(b));
    }
  }

  /** Two sets have the same words exactly when their symmetric difference hashes to zero. */
  lemma SameWordsExactly(a: set<Str>, b: set<Str>)
    ensures SetHash(a) == SetHash(b) <==> SetHash(SymmetricDifference(a, b)) == ZeroWords
  {
    var x, y := SetHash(a), SetHash(b);
    SetHashSymmetricDifference(a, b);
    XorSelf(y.high);
    XorSelf(y.low);
    if x.Plus(y) == ZeroWords {
      XorCancels(x.high, y.high);
      XorCancels(x.low, y.low);
      XorCommutes(0, y.high);
      XorCommutes(0, y.low);
      XorZero(y.high);
      XorZero(y.low);
    }
  }

  /** Distinct strings may collide on both words, so fastEquals can hold of different sets. */
  lemma FastEqualsMayErr()
    ensures exists a: Str, b: Str :: a != b && |{a}| == |{b}| && SetHash({a}) == SetHash({b})
  {
    var a: Str, b: Str := [97, 98, 32], [98, 0, 2177];
    assert a != b by { assert a[0] != b[0]; }
    CollisionValue(97, 98, 32);
    CollisionValue(98, 0, 2177);
    SetHashPick({a}, a);
    SetHashPick({b}, b);
    assert {a} - {a} == {} && {b} - {b} == {};
    assert |{a}| == |{b}|;
  }

  lemma CollisionValue(x: CodeUnit, y: CodeUnit, z: CodeUnit)
    ensures Poly(5381, 33, 1, [x, y, z]) == 5381 * 35937 + 1089 * x + 33 * y + z
    ensures Poly(5387, 65, 37, [x, y, z]) == 5387 * 274625 + 37 * (4225 * x + 65 * y + z)
  {
    var s: Str := [x, y, z];
    assert s == [] + [x] + [y] + [z];
    assert Pow(33, 0) == 1 && Pow(65, 0) == 1;
    PolyNext(5381, 33, 1, [], x);
    PolyNext(5381, 33, 1, [] + [x], y);
    PolyNext(5381, 33, 1, [] + [x] + [y], z);
    PolyNext(5387, 65, 37, [], x);
    PolyNext(5387, 65, 37, [] + [x], y);
    PolyNext(5387, 65, 37, [] + [x] + [y], z);
  }

  // ---------------------------------------------------------------- the class

  lemma ElementsWithout(s: seq<Str>, i: nat)
    requires NoDuplicates(s) && i < |s|
    ensures NoDuplicates(s[..i] + s[i + 1..])
    ensures AsSet(s[..i] + s[i + 1..]) == AsSet(s) - {s[i]}
  {
  }

  /** One member more in the prefix is one hash more in the words. */
  lemma PrefixStep(s: seq<Str>, i: nat)
    requires NoDuplicates(s) && i < |s|
    ensures SetHash(AsSet(s[..i + 1])) == SetHash(AsSet(s[..i])).With(Djb2(s[i]))
  {
    assert AsSet(s[..i + 1]) == Toggle(AsSet(s[..i]), s[i]);
    SetHashToggle(AsSet(s[..i]), s[i]);
  }

  class HashedSet {
    var members: seq<Str> // in insertion order, as a JavaScript Set iterates
    var hashHigh: Int32
    var hashLow: Int32

    ghost predicate Valid()
      reads this
    {
      && NoDuplicates(members)
      && WordPair(hashHigh, hashLow) == SetHash(AsSet(members))
    }

    /** Set's own constructor calls the overriding add for each item, before the two hash fields
        exist; the field initialisers then reset them and the loop starts over. */
    constructor (items: seq<Str>)
      ensures Valid()
      ensures AsSet(members) == AsSet(items)
    {
      members, hashHigh, hashLow := [], 0, 0;
      new;
      for i := 0 to |items|
        invariant Valid()
        invariant AsSet(members) == AsSet(items[..i])
      {
        assert AsSet(items[..i + 1]) == AsSet(items[..i]) + {items[i]};
        Add(items[i]);
      }
      assert items[..|items|] == items;
      hashHigh, hashLow := 0, 0;
      HashMembers();
    }

    /** The loop of the constructor over the finished set, starting from zero words. */
    method HashMembers()
      requires NoDuplicates(members) && hashHigh == 0 && hashLow == 0
      modifies this`hashHigh, this`hashLow
      ensures Valid()
    {
      for i := 0 to |members|
        invariant WordPair(hashHigh, hashLow) == SetHash(AsSet(members[..i]))
      {
        var hash64 := Djb2Dual(members[i]);
        PrefixStep(members, i);
        hashHigh, hashLow := Xor(hashHigh, hash64.high), Xor(hashLow, hash64.low);
      }
      assert members[..|members|] == members;
    }

    method Add(str: Str)
      requires Valid()
      modifies this
      ensures Valid()
      ensures members == if str in old(members) then old(members) else old(members) + [str]
      ensures AsSet(members) == old(AsSet(members)) + {str}
    {
      if str !in members {
        var hash64 := Djb2Dual(str);
        SetHashToggle(AsSet(members), str);
        hashHigh, hashLow := Xor(hashHigh, hash64.high), Xor(hashLow, hash64.low);
        assert AsSet(members + [str]) == AsSet(members) + {str};
        members := members + [str];
      }
    }

    method Delete(str: Str) returns (deleted: bool)
      requires Valid()
      modifies this
      ensures Valid()
      ensures deleted <==> str in old(members)
      ensures AsSet(members) == old(AsSet(members)) - {str}
      ensures forall i | 0 <= i < |old(members)| && old(members)[i] == str ::
                members == old(members)[..i] + old(members)[i + 1..]
    {
      deleted := str in members;
      if deleted {
        var hash64 := Djb2Dual(str);
        SetHashToggle(AsSet(members), str);
        hashHigh, hashLow := Xor(hashHigh, hash64.high), Xor(hashLow, hash64.low);
        var i :| 0 <= i < |members| && members[i] == str;
        ElementsWithout(members, i);
        members := members[..i] + members[i + 1..];
      }
    }

    method Clear()
      modifies this
      ensures Valid()
      ensures members == []
    {
      members, hashHigh, hashLow := [], 0, 0;
      assert AsSet<Str>([]) == {};
    }

    method HasSameHash(other: HashedSet) returns (same: bool)
      requires Valid() && other.Valid()
      ensures same <==> SetHash(SymmetricDifference(AsSet(members), AsSet(other.members))) == ZeroWords
    {
      same := hashHigh == other.hashHigh && hashLow == other.hashLow;
      SameWordsExactly(AsSet(members), AsSet(other.members));
    }

    function Hash64String(): string
      reads this
    {
      HexPrinter.PrintWords(hashHigh, hashLow)
    }

    method FastEquals(other: HashedSet) returns (same: bool)
      requires Valid() && other.Valid()
      ensures AsSet(members) == AsSet(other.members) ==> same
      ensures same <==> |AsSet(members)| == |AsSet(other.members)|
                        && SetHash(SymmetricDifference(AsSet(members), AsSet(other.members))) == ZeroWords
    {
      SizeOf(members);
      SizeOf(other.members);
      SameWordsExactly(AsSet(members), AsSet(other.members));
      same := |members| == |other.members|;
      if same {
        same := HasSameHash(other);
      }
    }

    /** The printed hash loses nothing: it is read back as the two words, the high one first, and tells two
        sets apart exactly when their words differ. */
    lemma HashStringsAgree(other: HashedSet)
      requires Valid() && other.Valid()
      ensures |Hash64String()| >= 16
      ensures HexPrinter.ReadWords(Hash64String()) == (hashHigh as int, hashLow as int)
      ensures Hash64String() == other.Hash64String() <==> SetHash(AsSet(members)) == SetHash(AsSet(other.members))
    {
      HexPrinter.ReadPrintedWords(hashHigh, hashLow);
      HexPrinter.PrintWordsInjective(hashHigh, hashLow, other.hashHigh, other.hashLow);
    }
  }
}
