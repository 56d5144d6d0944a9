/**
  The relation cJSON_Compare decides on two different trees, and what it means. Objects are
  compared by looking every key of one up in the other, both ways, and a look-up stops at the
  first match; so an object stands for a map from keys to the values first found, provided
  that repeated keys have equal values.
 */
module Equality {
  import opened Bytes
  import opened JsonTree

  /** tolower in the C locale */
  function Lower(c: byte): byte {
    if 65 <= c <= 90 then c + 32 else c
  }

  /** A key as it is compared. */
  function Fold(key: Bytes, caseSensitive: bool): (r: Bytes)
    ensures |r| == |key|
  {
    if caseSensitive then key else seq(|key|, i requires 0 <= i < |key| => Lower(key[i]))
  }

  const SMALL_LETTERS: string := "abcdefghijklmnopqrstuvwxyz"

  const CAPITAL_LETTERS: string := "ABCDEFGHIJKLMNOPQRSTUVWXYZ"

  /** `a` is `b`, or the same letter of the alphabet in the other size. */
  predicate SameLetter(a: byte, b: byte) {
    || a == b
    || exists k :: 0 <= k < 26 && {a as char, b as char} == {SMALL_LETTERS[k], CAPITAL_LETTERS[k]}
  }

  lemma LowerSame(a: byte, b: byte)
    ensures Lower(a) == Lower(b) <==> SameLetter(a, b)
  {
    forall k | 0 <= k < 26 ensures SMALL_LETTERS[k] as int == 97 + k && CAPITAL_LETTERS[k] as int == 65 + k {
      LetterCodes(k);
    }
    if Lower(a) == Lower(b) && a != b {
      var k := Lower(a) - 97;
      assert {a as char, b as char} == {SMALL_LETTERS[k], CAPITAL_LETTERS[k]};
    }
  }

  lemma LetterCodes(k: nat)
    requires k < 26
    ensures SMALL_LETTERS[k] as int == 97 + k && CAPITAL_LETTERS[k] as int == 65 + k
  {
  }

  /** Keys match if they are the same, or the same up to the size of letters, as the caller asks. */
  lemma KeysMatch(x: Bytes, y: Bytes)
    ensures Fold(x, true) == Fold(y, true) <==> x == y
    ensures Fold(x, false) == Fold(y, false) <==>
      |x| == |y| && forall i :: 0 <= i < |x| ==> SameLetter(x[i], y[i])
  {
    hide Lower, SameLetter;
    var f, g := Fold(x, false), Fold(y, false);
    if |x| == |y| {
      forall i | 0 <= i < |x| ensures f[i] == g[i] <==> SameLetter(x[i], y[i]) {
        LowerSame(x[i], y[i]);
      }
    }
  }

  /** The value of the first member whose key matches. */
  function Lookup(members: Members, key: Bytes, caseSensitive: bool): Option<Json> {
    match members
    case NoMembers => None
    case Member(k, value, rest) =>
      if Fold(key, caseSensitive) == Fold(k, caseSensitive) then Some(value) else Lookup(rest, key, caseSensitive)
  }

  lemma {:induction false} LookupNested(members: Members, key: Bytes, caseSensitive: bool)
    ensures var r := Lookup(members, key, caseSensitive); r.Some? ==> Nesting(r.value) <= MembersNesting(members)
  {
    match members
    case NoMembers =>
    case Member(_, _, rest) => LookupNested(rest, key, caseSensitive);
  }

  predicate Equal(a: Json, b: Json, caseSensitive: bool)
    decreases Nesting(a) + Nesting(b), 0, 0
  {
    match (a, b)
    case (Array(x), Array(y)) => ItemsEqual(x, y, caseSensitive)
    case (Object(x), Object(y)) => AllFound(x, y, caseSensitive) && AllFound(y, x, caseSensitive)
    case _ => a == b
  }

  predicate ItemsEqual(x: Items, y: Items, caseSensitive: bool)
    decreases ItemsNesting(x) + ItemsNesting(y), 1, x
  {
    match (x, y)
    case (NoItems, NoItems) => true
    case (Item(a, v), Item(b, w)) => Equal(a, b, caseSensitive) && ItemsEqual(v, w, caseSensitive)
    case _ => false
  }

  /** Every member of `x` has its key in `y`, with an equal value. */
  predicate AllFound(x: Members, y: Members, caseSensitive: bool)
    decreases MembersNesting(x) + MembersNesting(y), 1, x
  {
    match x
    case NoMembers => true
    case Member(key, value, rest) =>
      LookupNested(y, key, caseSensitive);
      var found := Lookup(y, key, caseSensitive);
      found.Some? && Equal(value, found.value, caseSensitive) && AllFound(rest, y, caseSensitive)
  }

  // ----- the meaning of a tree

  datatype Meaning =
    | Atom(leaf: Json)
    | List(values: Meanings)
    | Map(entries: map<Bytes, Meaning>)

  datatype Meanings = NoMeanings | Meanings(head: Meaning, tail: Meanings)

  /** Arrays are lists and objects are unordered maps from folded keys to what is found first. */
  function Denote(j: Json, caseSensitive: bool): Meaning {
    match j
    case Array(items) => List(DenoteItems(items, caseSensitive))
    case Object(members) => Map(DenoteMembers(members, caseSensitive))
    case _ => Atom(j)
  }

  function DenoteItems(items: Items, caseSensitive: bool): Meanings {
    match items
    case NoItems => NoMeanings
    case Item(head, tail) => Meanings(Denote(head, caseSensitive), DenoteItems(tail, caseSensitive))
  }

  function DenoteMembers(members: Members, caseSensitive: bool): map<Bytes, Meaning> {
    match members
    case NoMembers => map[]
    case Member(key, value, rest) =>
      DenoteMembers(rest, caseSensitive)[Fold(key, caseSensitive) := Denote(value, caseSensitive)]
  }

  /** Wherever a key is repeated, it has the same meaning. */
  predicate Consistent(j: Json, caseSensitive: bool) {
    match j
    case Array(items) => ItemsConsistent(items, caseSensitive)
    case Object(members) => MembersConsistent(members, DenoteMembers(members, caseSensitive), caseSensitive)
    case _ => true
  }

  predicate ItemsConsistent(items: Items, caseSensitive: bool) {
    match items
    case NoItems => true
    case Item(head, tail) => Consistent(head, caseSensitive) && ItemsConsistent(tail, caseSensitive)
  }

  /** The members have consistent values, the ones the map `all` gives to their keys. */
  predicate MembersConsistent(members: Members, all: map<Bytes, Meaning>, caseSensitive: bool) {
    match members
    case NoMembers => true
    case Member(key, value, rest) =>
      && Consistent(value, caseSensitive)
      && Fold(key, caseSensitive) in all && all[Fold(key, caseSensitive)] == Denote(value, caseSensitive)
      && MembersConsistent(rest, all, caseSensitive)
  }

  lemma {:induction false} LookupDenoted(members: Members, key: Bytes, caseSensitive: bool)
    ensures var r := Lookup(members, key, caseSensitive);
            var m := DenoteMembers(members, caseSensitive);
            && (r.Some? <==> Fold(key, caseSensitive) in m)
            && (r.Some? ==> m[Fold(key, caseSensitive)] == Denote(r.value, caseSensitive))
  {
    match members
    case NoMembers =>
    case Member(_, _, rest) => LookupDenoted(rest, key, caseSensitive);
  }

  /** The main theorem: cJSON_Compare's relation is equality of meanings between consistent trees. */
  lemma {:induction false} EqualMeansSame(a: Json, b: Json, caseSensitive: bool)
    ensures Equal(a, b, caseSensitive) <==>
      && Consistent(a, caseSensitive) && Consistent(b, caseSensitive)
      && Denote(a, caseSensitive) == Denote(b, caseSensitive)
    decreases Nesting(a) + Nesting(b), 0, 0
  {
    match (a, b)
    case (Array(x), Array(y)) => ItemsEqualMeansSame(x, y, caseSensitive);
    case (Object(x), Object(y)) => ObjectsEqualMeansSame(x, y, caseSensitive);
    case _ =>
  }

  lemma {:induction false} ItemsEqualMeansSame(x: Items, y: Items, caseSensitive: bool)
    ensures ItemsEqual(x, y, caseSensitive) <==>
      ItemsConsistent(x, caseSensitive) && ItemsConsistent(y, caseSensitive)
      && DenoteItems(x, caseSensitive) == DenoteItems(y, caseSensitive)
    decreases ItemsNesting(x) + ItemsNesting(y), 1, x
  {
    if x.Item? && y.Item? {
      EqualMeansSame(x.head, y.head, caseSensitive);
      ItemsEqualMeansSame(x.tail, y.tail, caseSensitive);
    }
  }

  lemma {:induction false} ObjectsEqualMeansSame(x: Members, y: Members, caseSensitive: bool)
    ensures var m, n := DenoteMembers(x, caseSensitive), DenoteMembers(y, caseSensitive);
            AllFound(x, y, caseSensitive) && AllFound(y, x, caseSensitive) <==>
            MembersConsistent(x, m, caseSensitive) && MembersConsistent(y, n, caseSensitive) && m == n
    decreases MembersNesting(x) + MembersNesting(y), 3
  {
    var m, n := DenoteMembers(x, caseSensitive), DenoteMembers(y, caseSensitive);
    if AllFound(x, y, caseSensitive) && AllFound(y, x, caseSensitive) {
      FoundAgrees(x, y, caseSensitive);
      FoundAgrees(y, x, caseSensitive);
      Submap(x, n, caseSensitive);
      Submap(y, m, caseSensitive);
      assert m.Keys == n.Keys;
      assert m == n;
    }
    if MembersConsistent(x, m, caseSensitive) && MembersConsistent(y, n, caseSensitive) && m == n {
      AgreesFound(x, y, caseSensitive);
      AgreesFound(y, x, caseSensitive);
    }
  }

  lemma {:induction false} FoundAgrees(x: Members, y: Members, caseSensitive: bool)
    requires AllFound(x, y, caseSensitive)
    ensures MembersConsistent(x, DenoteMembers(y, caseSensitive), caseSensitive)
    decreases MembersNesting(x) + MembersNesting(y), 1, x
  {
    match x
    case NoMembers =>
    case Member(key, value, rest) =>
      LookupNested(y, key, caseSensitive);
      LookupDenoted(y, key, caseSensitive);
      EqualMeansSame(value, Lookup(y, key, caseSensitive).value, caseSensitive);
      FoundAgrees(rest, y, caseSensitive);
  }

  lemma {:induction false} AgreesFound(x: Members, y: Members, caseSensitive: bool)
    requires MembersConsistent(x, DenoteMembers(y, caseSensitive), caseSensitive)
    requires MembersConsistent(y, DenoteMembers(y, caseSensitive), caseSensitive)
    ensures AllFound(x, y, caseSensitive)
    decreases MembersNesting(x) + MembersNesting(y), 1, x
  {
    match x
    case NoMembers =>
    case Member(key, value, rest) =>
      LookupNested(y, key, caseSensitive);
      LookupDenoted(y, key, caseSensitive);
      LookupConsistent(y, DenoteMembers(y, caseSensitive), key, caseSensitive);
      EqualMeansSame(value, Lookup(y, key, caseSensitive).value, caseSensitive);
      AgreesFound(rest, y, caseSensitive);
  }

  lemma {:induction false} LookupConsistent(members: Members, all: map<Bytes, Meaning>, key: Bytes, caseSensitive: bool)
    requires MembersConsistent(members, all, caseSensitive) && Lookup(members, key, caseSensitive).Some?
    ensures Consistent(Lookup(members, key, caseSensitive).value, caseSensitive)
  {
    if Fold(key, caseSensitive) != Fold(members.key, caseSensitive) {
      LookupConsistent(members.rest, all, key, caseSensitive);
    }
  }

  lemma {:induction false} Submap(members: Members, all: map<Bytes, Meaning>, caseSensitive: bool)
    requires MembersConsistent(members, all, caseSensitive)
    ensures forall k :: k in DenoteMembers(members, caseSensitive) ==>
      k in all && all[k] == DenoteMembers(members, caseSensitive)[k]
  {
    if members.Member? {
      Submap(members.rest, all, caseSensitive);
    }
  }

  // ----- corollaries

  lemma EqualSymmetric(a: Json, b: Json, caseSensitive: bool)
    ensures Equal(a, b, caseSensitive) == Equal(b, a, caseSensitive)
  {
    EqualMeansSame(a, b, caseSensitive);
    EqualMeansSame(b, a, caseSensitive);
  }

  lemma EqualTransitive(a: Json, b: Json, c: Json, caseSensitive: bool)
    requires Equal(a, b, caseSensitive) && Equal(b, c, caseSensitive)
    ensures Equal(a, c, caseSensitive)
  {
    EqualMeansSame(a, b, caseSensitive);
    EqualMeansSame(b, c, caseSensitive);
    EqualMeansSame(a, c, caseSensitive);
  }

  /** A tree equals a copy of itself exactly when its repeated keys agree. */
  lemma EqualToCopy(a: Json, caseSensitive: bool)
    ensures Equal(a, a, caseSensitive) <==> Consistent(a, caseSensitive)
  {
    EqualMeansSame(a, a, caseSensitive);
  }

  /** No object in the tree has two keys that are the same in the chosen mode. */
  predicate DistinctKeys(j: Json, caseSensitive: bool) {
    match j
    case Array(items) => ItemsDistinct(items, caseSensitive)
    case Object(members) => MembersDistinct(members, caseSensitive)
    case _ => true
  }

  predicate ItemsDistinct(items: Items, caseSensitive: bool) {
    match items
    case NoItems => true
    case Item(head, tail) => DistinctKeys(head, caseSensitive) && ItemsDistinct(tail, caseSensitive)
  }

  predicate MembersDistinct(members: Members, caseSensitive: bool) {
    match members
    case NoMembers => true
    case Member(key, value, rest) =>
      && DistinctKeys(value, caseSensitive) && Lookup(rest, key, caseSensitive).None?
      && MembersDistinct(rest, caseSensitive)
  }

  lemma {:induction false} DistinctIsConsistent(j: Json, caseSensitive: bool)
    requires DistinctKeys(j, caseSensitive)
    ensures Consistent(j, caseSensitive)
  {
    match j
    case Array(items) => DistinctItemsConsistent(items, caseSensitive);
    case Object(members) =>
      DistinctMembersConsistent(members, DenoteMembers(members, caseSensitive), caseSensitive);
    case _ =>
  }

  lemma {:induction false} DistinctItemsConsistent(items: Items, caseSensitive: bool)
    requires ItemsDistinct(items, caseSensitive)
    ensures ItemsConsistent(items, caseSensitive)
  {
    match items
    case NoItems =>
    case Item(head, tail) =>
      DistinctIsConsistent(head, caseSensitive);
      DistinctItemsConsistent(tail, caseSensitive);
  }

  lemma {:induction false} DistinctMembersConsistent(members: Members, all: map<Bytes, Meaning>, caseSensitive: bool)
    requires MembersDistinct(members, caseSensitive)
    requires forall k :: k in DenoteMembers(members, caseSensitive) ==>
      k in all && all[k] == DenoteMembers(members, caseSensitive)[k]
    ensures MembersConsistent(members, all, caseSensitive)
  {
    match members
    case NoMembers =>
    case Member(key, value, rest) =>
      DistinctIsConsistent(value, caseSensitive);
      LookupDenoted(rest, key, caseSensitive);
      assert Fold(key, caseSensitive) in DenoteMembers(members, caseSensitive);
      forall k | k in DenoteMembers(rest, caseSensitive)
        ensures k in all && all[k] == DenoteMembers(rest, caseSensitive)[k]
      {
        assert k in DenoteMembers(members, caseSensitive);
      }
      DistinctMembersConsistent(rest, all, caseSensitive);
  }

  /** With distinct keys, the result is true exactly when the trees mean the same. */
  lemma DistinctKeysCompare(a: Json, b: Json, caseSensitive: bool)
    requires DistinctKeys(a, caseSensitive) && DistinctKeys(b, caseSensitive)
    ensures Equal(a, b, caseSensitive) <==> Denote(a, caseSensitive) == Denote(b, caseSensitive)
  {
    DistinctIsConsistent(a, caseSensitive);
    DistinctIsConsistent(b, caseSensitive);
    EqualMeansSame(a, b, caseSensitive);
  }

  /** So a deep copy, which has the same value, compares equal to its original when keys are distinct. */
  lemma CopyEqualsOriginal(a: Json, caseSensitive: bool)
    requires DistinctKeys(a, caseSensitive)
    ensures Equal(a, a, caseSensitive)
  {
    DistinctIsConsistent(a, caseSensitive);
    EqualMeansSame(a, a, caseSensitive);
  }

  /** With a repeated key of two values, a tree is not even equal to its copy. */
  lemma RepeatedKeyNotEqual(key: Bytes, caseSensitive: bool)
    ensures var j := Object(Member(key, True, Member(key, False, NoMembers))); !Equal(j, j, caseSensitive)
  {
    var j := Object(Member(key, True, Member(key, False, NoMembers)));
    EqualToCopy(j, caseSensitive);
    assert Denote(True, caseSensitive) != Denote(False, caseSensitive);
    var all := DenoteMembers(j.members, caseSensitive);
    assert all[Fold(key, caseSensitive)] == Atom(True);
    assert !MembersConsistent(j.members.rest, all, caseSensitive);
  }
}
