/** NetTypeDatabase: types register in any order, and class ids are handed out by name. */
module TypeDatabases {
  import opened Wrappers

  const INVALID_TYPE_HASH: nat := 0
  const INVALID_CLASS_ID: nat := 0x7FFF_FFFF

  datatype TypeInfo = TypeInfo(
    className: string, typeNameHash: nat, typeIdHash: nat, parentIdHash: nat, isAbstract: bool,
    classId: nat, parentClassId: nat)

  // ----- order by name -----

  /** `strcmp(a, b) < 0` */
  predicate Less(a: string, b: string)
    decreases |a|
  {
    if b == "" then false
    else if a == "" then true
    else if a[0] != b[0] then a[0] < b[0]
    else Less(a[1..], b[1..])
  }

  /** `a` ends within `b`, or has the smaller character at the first difference. */
  ghost predicate Precedes(a: string, b: string, k: nat)
  {
    k < |b| && k <= |a| && a[..k] == b[..k] && (k == |a| || a[k] < b[k])
  }

  lemma {:induction false} LessExact(a: string, b: string)
    ensures Less(a, b) <==> exists k: nat :: Precedes(a, b, k)
    decreases |a|
  {
    if b == "" {
    } else if a == "" {
      assert Precedes(a, b, 0);
    } else if a[0] != b[0] {
      FirstDiffers(a, b);
    } else {
      LessExact(a[1..], b[1..]);
      SameFirst(a, b);
    }
  }

  lemma FirstDiffers(a: string, b: string)
    requires a != "" && b != "" && a[0] != b[0]
    ensures a[0] < b[0] <==> exists k: nat :: Precedes(a, b, k)
  {
    if a[0] < b[0] {
      assert Precedes(a, b, 0);
    } else if exists k: nat :: Precedes(a, b, k) {
      var k: nat :| Precedes(a, b, k);
      FirstDecides(a, b, k);
    }
  }

  lemma FirstDecides(a: string, b: string, k: nat)
    requires Precedes(a, b, k) && a != ""
    ensures a[0] <= b[0]
  {
    if k > 0 { assert a[0] == a[..k][0] == b[..k][0] == b[0]; }
  }

  lemma SameFirst(a: string, b: string)
    requires a != "" && b != "" && a[0] == b[0]
    ensures (exists k: nat :: Precedes(a[1..], b[1..], k)) <==> exists k: nat :: Precedes(a, b, k)
  {
    if exists k: nat :: Precedes(a, b, k) {
      var k: nat :| Precedes(a, b, k);
      var j: nat := k - 1;
      ShiftFirst(a, b, j);
    }
    if exists k: nat :: Precedes(a[1..], b[1..], k) {
      var k: nat :| Precedes(a[1..], b[1..], k);
      ShiftFirst(a, b, k);
    }
  }

  lemma ShiftFirst(a: string, b: string, k: nat)
    requires a != "" && b != "" && a[0] == b[0]
    ensures Precedes(a[1..], b[1..], k) <==> Precedes(a, b, k + 1)
  {
    if k < |a| && k < |b| {
      assert a[..k + 1] == [a[0]] + a[1..][..k] && b[..k + 1] == [b[0]] + b[1..][..k];
      assert a[..k + 1][1..] == a[1..][..k] && b[..k + 1][1..] == b[1..][..k];
    }
  }

  lemma {:induction false} LessTotal(a: string, b: string)
    ensures a != b <==> Less(a, b) || Less(b, a)
    ensures !(Less(a, b) && Less(b, a))
    decreases |a|
  {
    if a != "" && b != "" && a[0] == b[0] {
      LessTotal(a[1..], b[1..]);
      if a[1..] == b[1..] {
        assert a == [a[0]] + a[1..] && b == [b[0]] + b[1..];
      }
    }
  }

  lemma {:induction false} LessTransitive(a: string, b: string, c: string)
    requires Less(a, b) && Less(b, c)
    ensures Less(a, c)
    decreases |a|
  {
    if a != "" && a[0] == b[0] && b[0] == c[0] { LessTransitive(a[1..], b[1..], c[1..]); }
  }

  ghost predicate Ordered(infos: seq<TypeInfo>)
  {
    forall i, j :: 0 <= i < j < |infos| ==> Less(infos[i].className, infos[j].className)
  }

  ghost predicate DistinctNames(infos: seq<TypeInfo>)
  {
    forall i, j :: 0 <= i < j < |infos| ==> infos[i].className != infos[j].className
  }

  ghost predicate SameMembers<T>(a: seq<T>, b: seq<T>)
  {
    (forall x :: x in a ==> x in b) && (forall x :: x in b ==> x in a)
  }

  /** `std::sort` by class name. */
  function Sort(infos: seq<TypeInfo>): (r: seq<TypeInfo>)
    ensures |r| == |infos|
    decreases |infos|
  {
    if infos == [] then [] else Insert(infos[0], Sort(infos[1..]))
  }

  function Insert(x: TypeInfo, infos: seq<TypeInfo>): (r: seq<TypeInfo>)
    ensures |r| == |infos| + 1
    decreases |infos|
  {
    if infos == [] || Less(x.className, infos[0].className) then [x] + infos
    else [infos[0]] + Insert(x, infos[1..])
  }

  lemma {:induction false} InsertOrdered(x: TypeInfo, infos: seq<TypeInfo>)
    requires Ordered(infos) && forall y :: y in infos ==> y.className != x.className
    ensures Ordered(Insert(x, infos)) && forall y :: y in Insert(x, infos) <==> y == x || y in infos
    decreases |infos|
  {
    if infos == [] {
    } else if Less(x.className, infos[0].className) {
      forall j | 0 <= j < |infos| ensures Less(x.className, infos[j].className) {
        if j > 0 { LessTransitive(x.className, infos[0].className, infos[j].className); }
      }
    } else {
      var r := Insert(x, infos[1..]);
      InsertOrdered(x, infos[1..]);
      LessTotal(x.className, infos[0].className);
      assert infos == [infos[0]] + infos[1..];
      assert infos[0] in infos;
      forall j | 0 <= j < |r| ensures Less(infos[0].className, r[j].className) {
        assert r[j] in r;
      }
    }
  }

  lemma {:induction false} SortOrdered(infos: seq<TypeInfo>)
    requires DistinctNames(infos)
    ensures Ordered(Sort(infos)) && SameMembers(Sort(infos), infos)
    decreases |infos|
  {
    if infos != [] {
      SortOrdered(infos[1..]);
      assert infos == [infos[0]] + infos[1..];
      InsertOrdered(infos[0], Sort(infos[1..]));
    }
  }

  lemma OrderedFirst(a: seq<TypeInfo>, b: seq<TypeInfo>)
    requires Ordered(a) && Ordered(b) && SameMembers(a, b) && a != []
    ensures b != [] && a[0] == b[0]
  {
    assert a[0] in b;
    var i :| 0 <= i < |b| && b[i] == a[0];
    assert b[0] in a;
    var j :| 0 <= j < |a| && a[j] == b[0];
    LessTotal(a[0].className, b[0].className);
  }

  lemma OrderedTail(a: seq<TypeInfo>, b: seq<TypeInfo>)
    requires Ordered(a) && Ordered(b) && SameMembers(a, b) && a != [] && b != [] && a[0] == b[0]
    ensures SameMembers(a[1..], b[1..])
  {
    assert a == [a[0]] + a[1..] && b == [b[0]] + b[1..];
    FirstOnce(a);
    FirstOnce(b);
    forall x ensures x in a[1..] <==> x in b[1..] {
      assert x in a <==> x in b;
    }
  }

  lemma FirstOnce(a: seq<TypeInfo>)
    requires Ordered(a) && a != []
    ensures a[0] !in a[1..]
  {
    LessTotal(a[0].className, a[0].className);
  }

  lemma SomeMember<T>(a: seq<T>)
    ensures a == [] || exists x :: x in a
  {
    if a != [] { assert a[0] in a; }
  }

  /** The members determine an ordered list. */
  lemma {:induction false} OrderedUnique(a: seq<TypeInfo>, b: seq<TypeInfo>)
    requires Ordered(a) && Ordered(b) && SameMembers(a, b)
    ensures a == b
    decreases |a|
  {
    if a == [] {
      SomeMember(b);
    } else {
      OrderedFirst(a, b);
      OrderedTail(a, b);
      OrderedUnique(a[1..], b[1..]);
      assert a == [a[0]] + a[1..] && b == [b[0]] + b[1..];
    }
  }

  // ----- the finished database -----

  /** Abstract types get no id. */
  function Concrete(infos: seq<TypeInfo>): seq<TypeInfo>
    decreases |infos|
  {
    if infos == [] then []
    else if infos[0].isAbstract then Concrete(infos[1..])
    else [infos[0]] + Concrete(infos[1..])
  }

  lemma {:induction false} ConcreteMembers(infos: seq<TypeInfo>)
    ensures forall x :: x in Concrete(infos) <==> x in infos && !x.isAbstract
    ensures DistinctNames(infos) ==> DistinctNames(Concrete(infos))
    decreases |infos|
  {
    if infos != [] {
      ConcreteMembers(infos[1..]);
      assert infos == [infos[0]] + infos[1..];
    }
  }

  /** The first entry with a type hash, from `i` on. */
  function FindHash(infos: seq<TypeInfo>, hash: nat, i: nat): (r: Option<nat>)
    requires i <= |infos|
    ensures r.Some? ==> i <= r.value < |infos| && infos[r.value].typeIdHash == hash
    ensures r.Some? ==> forall j :: i <= j < r.value ==> infos[j].typeIdHash != hash
    ensures r.None? ==> forall j :: i <= j < |infos| ==> infos[j].typeIdHash != hash
    decreases |infos| - i
  {
    if i == |infos| then None else if infos[i].typeIdHash == hash then Some(i) else FindHash(infos, hash, i + 1)
  }

  function Finished(sorted: seq<TypeInfo>, i: nat): TypeInfo
    requires i < |sorted|
  {
    var info := sorted[i].(classId := i);
    var base := FindHash(sorted, info.parentIdHash, 0);
    if info.parentIdHash != INVALID_TYPE_HASH && base.Some? then info.(parentClassId := base.value) else info
  }

  function Database(infos: seq<TypeInfo>): (db: seq<TypeInfo>)
  {
    var sorted := Sort(Concrete(infos));
    seq(|sorted|, i requires 0 <= i < |sorted| => Finished(sorted, i))
  }

  /** Two orders of registering the same distinctly named types give the same ids. */
  lemma IdsIgnoreOrder(a: seq<TypeInfo>, b: seq<TypeInfo>)
    requires DistinctNames(a) && DistinctNames(b) && SameMembers(a, b)
    ensures Database(a) == Database(b)
  {
    ConcreteMembers(a);
    ConcreteMembers(b);
    SortOrdered(Concrete(a));
    SortOrdered(Concrete(b));
    OrderedUnique(Sort(Concrete(a)), Sort(Concrete(b)));
  }

  /** A type's id counts the concrete types with smaller names: ids follow the order of names. */
  lemma IdsFollowNames(infos: seq<TypeInfo>, i: nat, j: nat)
    requires DistinctNames(infos) && i < |Database(infos)| && j < |Database(infos)|
    ensures Database(infos)[i].classId == i
    ensures
      var a, b := Database(infos)[i].className, Database(infos)[j].className;
      i < j <==> exists k: nat :: k < |b| && k <= |a| && a[..k] == b[..k] && (k == |a| || a[k] < b[k])
  {
    hide Sort, Concrete, Less;
    var sorted := Sort(Concrete(infos));
    var a, b := sorted[i].className, sorted[j].className;
    ConcreteMembers(infos);
    SortOrdered(Concrete(infos));
    LessTotal(a, b);
    LessExact(a, b);
    assert forall k: nat :: k < |b| && k <= |a| && a[..k] == b[..k] && (k == |a| || a[k] < b[k]) ==> Precedes(a, b, k);
    assert i < j ==> Less(sorted[i].className, sorted[j].className);
    assert j < i ==> Less(sorted[j].className, sorted[i].className);
  }

  ghost predicate DistinctHashes(infos: seq<TypeInfo>)
  {
    forall i, j :: 0 <= i < j < |infos| ==> infos[i].typeIdHash != infos[j].typeIdHash
  }

  /** Types as the registration macros leave them: names and, among concrete types, hashes are
      distinct, and no parent id is known yet. */
  ghost predicate Registered(infos: seq<TypeInfo>)
  {
    && DistinctNames(infos) && DistinctHashes(Concrete(infos)) && |Concrete(infos)| <= INVALID_CLASS_ID
    && forall x <- infos :: x.parentClassId == INVALID_CLASS_ID
  }

  /** Sorting keeps all this. */
  lemma SortedTypes(infos: seq<TypeInfo>)
    requires Registered(infos)
    ensures
      var sorted := Sort(Concrete(infos));
      && SameMembers(sorted, Concrete(infos)) && DistinctHashes(sorted)
      && forall x <- sorted :: x.parentClassId == INVALID_CLASS_ID
  {
    hide Sort, Less;
    ConcreteMembers(infos);
    SortOrdered(Concrete(infos));
    SameHashes(Concrete(infos), Sort(Concrete(infos)));
  }

  lemma SameHashes(a: seq<TypeInfo>, b: seq<TypeInfo>)
    requires DistinctHashes(a) && Ordered(b) && SameMembers(b, a)
    ensures DistinctHashes(b)
  {
    forall i, j | 0 <= i < j < |b| ensures b[i].typeIdHash != b[j].typeIdHash {
      assert b[i] in a && b[j] in a;
      LessTotal(b[i].className, b[j].className);
    }
  }

  lemma DatabaseHashes(infos: seq<TypeInfo>)
    ensures
      var sorted := Sort(Concrete(infos));
      && |Database(infos)| == |sorted| == |Concrete(infos)|
      && forall i :: 0 <= i < |sorted| ==>
           Database(infos)[i].typeIdHash == sorted[i].typeIdHash
           && Database(infos)[i].parentIdHash == sorted[i].parentIdHash
  {
    hide Sort, Concrete;
  }

  lemma FoundHash(infos: seq<TypeInfo>, hash: nat, j: nat)
    requires DistinctHashes(infos) && j < |infos|
    ensures FindHash(infos, hash, 0) == Some(j) <==> infos[j].typeIdHash == hash
  {
  }

  /** A parent id is the id of the concrete type with the parent's hash; without such a type
      there is none. */
  lemma ParentIds(infos: seq<TypeInfo>, i: nat)
    requires Registered(infos) && i < |Database(infos)|
    ensures
      var db := Database(infos);
      && (forall j: nat :: j < |db| ==>
            (db[i].parentClassId == j
             <==> db[i].parentIdHash != INVALID_TYPE_HASH && db[j].typeIdHash == db[i].parentIdHash))
      && (db[i].parentClassId < |db| || db[i].parentClassId == INVALID_CLASS_ID)
  {
    hide Sort, Concrete, DistinctHashes;
    var db, sorted := Database(infos), Sort(Concrete(infos));
    SortedTypes(infos);
    DatabaseHashes(infos);
    assert sorted[i] in sorted;
    forall j: nat | j < |db|
      ensures FindHash(sorted, sorted[i].parentIdHash, 0) == Some(j) <==> db[j].typeIdHash == db[i].parentIdHash
    {
      FoundHash(sorted, sorted[i].parentIdHash, j);
    }
  }

  /** The database has every concrete type, as registered but for the two ids, and no other. */
  lemma DatabaseEntries(infos: seq<TypeInfo>)
    requires DistinctNames(infos)
    ensures
      forall i: nat :: i < |Database(infos)| ==> FromConcrete(infos, Database(infos)[i], i)
    ensures
      forall x :: x in infos && !x.isAbstract ==>
        exists i: nat :: i < |Database(infos)| && WithIds(x, Database(infos)[i], i)
  {
    forall i: nat | i < |Database(infos)|
      ensures FromConcrete(infos, Database(infos)[i], i)
    {
      var x := EntryOf(infos, i);
    }
    forall x | x in infos && !x.isAbstract
      ensures exists i: nat :: i < |Database(infos)| && WithIds(x, Database(infos)[i], i)
    {
      var i := IdOf(infos, x);
    }
  }

  ghost predicate FromConcrete(infos: seq<TypeInfo>, y: TypeInfo, id: nat)
  {
    exists x :: x in infos && !x.isAbstract && WithIds(x, y, id)
  }

  lemma EntryOf(infos: seq<TypeInfo>, i: nat) returns (x: TypeInfo)
    requires DistinctNames(infos) && i < |Database(infos)|
    ensures x in infos && !x.isAbstract && WithIds(x, Database(infos)[i], i)
  {
    hide Sort, Concrete;
    x := Sort(Concrete(infos))[i];
    ConcreteMembers(infos);
    SortOrdered(Concrete(infos));
    assert x in Sort(Concrete(infos));
  }

  lemma IdOf(infos: seq<TypeInfo>, x: TypeInfo) returns (i: nat)
    requires DistinctNames(infos) && x in infos && !x.isAbstract
    ensures i < |Database(infos)| && WithIds(x, Database(infos)[i], i)
  {
    hide Sort, Concrete;
    var sorted := Sort(Concrete(infos));
    ConcreteMembers(infos);
    SortOrdered(Concrete(infos));
    assert x in Concrete(infos) && x in sorted;
    i :| i < |sorted| && sorted[i] == x;
  }

  /** The registered type `x` with the id `id` and whatever parent id. */
  predicate WithIds(x: TypeInfo, y: TypeInfo, id: nat)
  {
    y == x.(classId := id, parentClassId := y.parentClassId)
  }

  // ----- inheritance -----

  /** The class `n` parents up; `None` past the root. */
  function Climb(db: seq<TypeInfo>, class_id: nat, n: nat): Option<nat>
    decreases n
  {
    if class_id >= |db| then None
    else if n == 0 then Some(class_id)
    else Climb(db, db[class_id].parentClassId, n - 1)
  }

  ghost predicate Rooted(db: seq<TypeInfo>, class_id: nat)
  {
    exists n: nat :: Climb(db, class_id, n).None?
  }

  /** Following parents comes to an end. */
  ghost predicate Acyclic(db: seq<TypeInfo>)
  {
    forall id: nat :: Rooted(db, id)
  }

  /** The base is the class itself or one of its ancestors. */
  ghost predicate Inherits(db: seq<TypeInfo>, class_id: nat, base: nat)
  {
    exists n: nat :: Climb(db, class_id, n) == Some(base)
  }

  /** A class inherits from itself and from what its parent inherits from. */
  lemma InheritsUp(db: seq<TypeInfo>, class_id: nat, base: nat)
    ensures Inherits(db, class_id, base)
       <==> class_id < |db| && (base == class_id || Inherits(db, db[class_id].parentClassId, base))
  {
    if class_id < |db| {
      var up := db[class_id].parentClassId;
      forall n: nat ensures Climb(db, class_id, n + 1) == Climb(db, up, n) {
      }
      assert Climb(db, class_id, 0) == Some(class_id);
      if n: nat :| Climb(db, class_id, n) == Some(base) {
        if n > 0 { assert Climb(db, up, n - 1) == Some(base); }
      }
      if n: nat :| Climb(db, up, n) == Some(base) {
        assert Climb(db, class_id, n + 1) == Some(base);
      }
    }
  }

  /** `id` is the class `climbed` parents up. */
  ghost predicate Reached(db: seq<TypeInfo>, class_id: nat, climbed: nat, id: nat)
  {
    forall m: nat :: Climb(db, class_id, climbed + m) == Climb(db, id, m)
  }

  lemma ReachedHere(db: seq<TypeInfo>, class_id: nat, climbed: nat, id: nat)
    requires Reached(db, class_id, climbed, id)
    ensures Climb(db, class_id, climbed) == if id < |db| then Some(id) else None
  {
    assert Climb(db, class_id, climbed + 0) == Climb(db, id, 0);
  }

  ghost predicate WellLinked(db: seq<TypeInfo>)
  {
    && |db| <= INVALID_CLASS_ID
    && forall i :: 0 <= i < |db| ==> db[i].parentClassId < |db| || db[i].parentClassId == INVALID_CLASS_ID
  }

  lemma {:induction false} BeyondRoot(db: seq<TypeInfo>, id: nat, n: nat, m: nat)
    requires Climb(db, id, n).None? && m >= n
    ensures Climb(db, id, m).None?
    decreases n
  {
    if n > 0 && id < |db| { BeyondRoot(db, db[id].parentClassId, n - 1, m - 1); }
  }

  // ----- inheritance as the types declare it -----

  /** The hash of the type `n` parents up from the one with a hash, going by the parents'
      hashes through concrete types only. */
  function Follow(types: seq<TypeInfo>, hash: nat, n: nat): Option<nat>
    decreases n
  {
    var at := FindHash(types, hash, 0);
    if at.None? then None
    else if n == 0 then Some(hash)
    else if types[at.value].parentIdHash == INVALID_TYPE_HASH then None
    else Follow(types, types[at.value].parentIdHash, n - 1)
  }

  ghost predicate Ends(types: seq<TypeInfo>, hash: nat)
  {
    exists n: nat :: Follow(types, hash, n).None?
  }

  /** No type is its own ancestor. */
  ghost predicate AcyclicHashes(types: seq<TypeInfo>)
  {
    forall x <- types :: Ends(types, x.typeIdHash)
  }

  /** The base is the type itself or one of its declared ancestors. */
  ghost predicate Declares(types: seq<TypeInfo>, hash: nat, base: nat)
  {
    exists n: nat :: Follow(types, hash, n) == Some(base)
  }

  /** A type declares itself and what its concrete parent declares. */
  lemma DeclaresUp(types: seq<TypeInfo>, hash: nat, base: nat)
    ensures
      var at := FindHash(types, hash, 0);
      Declares(types, hash, base) <==>
        at.Some? && (base == hash
          || (types[at.value].parentIdHash != INVALID_TYPE_HASH && Declares(types, types[at.value].parentIdHash, base)))
  {
    hide FindHash;
    var at := FindHash(types, hash, 0);
    if at.Some? {
      var up := types[at.value].parentIdHash;
      assert Follow(types, hash, 0) == Some(hash);
      if n: nat :| Follow(types, hash, n) == Some(base) {
        if n > 0 { assert Follow(types, up, n - 1) == Some(base); }
      }
      if n: nat :| up != INVALID_TYPE_HASH && Follow(types, up, n) == Some(base) {
        assert Follow(types, hash, n + 1) == Some(base);
      }
    }
  }

  /** The entry with a hash is the type with that hash. */
  lemma SameType(infos: seq<TypeInfo>, i: nat)
    requires Registered(infos) && i < |Database(infos)|
    ensures
      var db, types := Database(infos), Concrete(infos);
      var at := FindHash(types, db[i].typeIdHash, 0);
      at.Some? && types[at.value].parentIdHash == db[i].parentIdHash
  {
    hide Sort, Concrete, Database;
    var types, sorted := Concrete(infos), Sort(Concrete(infos));
    SortedTypes(infos);
    DatabaseHashes(infos);
    assert sorted[i] in sorted && sorted[i] in types;
    var k :| 0 <= k < |types| && types[k] == sorted[i];
    FoundHash(types, sorted[i].typeIdHash, k);
  }

  /** Climbing by ids in the database is following hashes. */
  lemma {:induction false} ClimbFollows(infos: seq<TypeInfo>, i: nat, n: nat)
    requires Registered(infos) && i < |Database(infos)|
    ensures
      var db := Database(infos);
      var up := Climb(db, i, n);
      && (up.Some? ==> up.value < |db|)
      && Follow(Concrete(infos), db[i].typeIdHash, n)
           == if up.Some? then Some(db[up.value].typeIdHash) else None
    decreases n
  {
    hide Sort, Concrete, Database, FindHash;
    SameType(infos, i);
    if n > 0 {
      ParentIds(infos, i);
      DatabaseHashes(infos);
      var db := Database(infos);
      if db[i].parentClassId < |db| {
        ClimbFollows(infos, db[i].parentClassId, n - 1);
      } else if db[i].parentIdHash != INVALID_TYPE_HASH {
        NoParent(infos, db[i].parentIdHash);
      }
    }
  }

  lemma NoParent(infos: seq<TypeInfo>, hash: nat)
    requires Registered(infos)
    requires forall j: nat :: j < |Database(infos)| ==> Database(infos)[j].typeIdHash != hash
    ensures FindHash(Concrete(infos), hash, 0).None?
  {
    hide Sort, Concrete, Database, FindHash;
    var types, sorted := Concrete(infos), Sort(Concrete(infos));
    SortedTypes(infos);
    DatabaseHashes(infos);
    forall k | 0 <= k < |types| ensures types[k].typeIdHash != hash {
      assert types[k] in types && types[k] in sorted;
    }
  }

  /** Parents that end by hash end by id, so asking for ancestors terminates. */
  lemma DatabaseEnds(infos: seq<TypeInfo>)
    requires Registered(infos) && AcyclicHashes(Concrete(infos))
    ensures WellLinked(Database(infos)) && Acyclic(Database(infos))
  {
    hide Sort, Concrete, Database, Climb, Follow;
    var db, types, sorted := Database(infos), Concrete(infos), Sort(Concrete(infos));
    DatabaseHashes(infos);
    SortedTypes(infos);
    forall i: nat | i < |db| ensures db[i].parentClassId < |db| || db[i].parentClassId == INVALID_CLASS_ID {
      ParentIds(infos, i);
    }
    forall id: nat ensures Rooted(db, id) {
      if id < |db| {
        assert sorted[id] in sorted && sorted[id] in types;
        assert Ends(types, db[id].typeIdHash);
        var n: nat :| Follow(types, db[id].typeIdHash, n).None?;
        ClimbFollows(infos, id, n);
      } else {
        PastTheEnd(db, id);
      }
    }
  }

  lemma PastTheEnd(db: seq<TypeInfo>, id: nat)
    requires id >= |db|
    ensures Climb(db, id, 0).None?
  {
  }

  /** Inheritance by ids is inheritance as declared. */
  lemma InheritsAsDeclared(infos: seq<TypeInfo>, i: nat, j: nat)
    requires Registered(infos) && i < |Database(infos)| && j < |Database(infos)|
    ensures
      var db := Database(infos);
      Inherits(db, i, j) <==> Declares(Concrete(infos), db[i].typeIdHash, db[j].typeIdHash)
  {
    hide Sort, Concrete, Database, Climb, Follow;
    var db, types := Database(infos), Concrete(infos);
    forall n: nat
      ensures Climb(db, i, n) == Some(j) <==> Follow(types, db[i].typeIdHash, n) == Some(db[j].typeIdHash)
    {
      ClimbFollows(infos, i, n);
      var up := Climb(db, i, n);
      if up.Some? && db[up.value].typeIdHash == db[j].typeIdHash { SameHash(infos, up.value, j); }
    }
  }

  lemma SameHash(infos: seq<TypeInfo>, i: nat, j: nat)
    requires Registered(infos) && i < |Database(infos)| && j < |Database(infos)|
    requires Database(infos)[i].typeIdHash == Database(infos)[j].typeIdHash
    ensures i == j
  {
    hide Sort, Concrete, Database;
    SortedTypes(infos);
    DatabaseHashes(infos);
  }

  class TypeDatabase {
    var typeInfoList: seq<TypeInfo>  // the most recent registration first
    var initialized: bool
    var defaultTypeNameHash: nat
    var defaultTypeClassId: nat
    var database: seq<TypeInfo>

    constructor ()
      ensures typeInfoList == [] && !initialized && defaultTypeNameHash == 0 && database == []
    {
      typeInfoList, initialized, defaultTypeNameHash, defaultTypeClassId, database := [], false, 0, 0, [];
    }

    /** Registering after the ids have been handed out throws. */
    method AddClass(type_info: TypeInfo) returns (ok: bool)
      modifies this
      ensures ok <==> !old(initialized)
      ensures !ok ==> unchanged(this)
      ensures ok ==>
        && typeInfoList == [type_info] + old(typeInfoList) && !initialized && database == old(database)
        && defaultTypeClassId == old(defaultTypeClassId)
        && defaultTypeNameHash == if old(defaultTypeNameHash) == 0 && !type_info.isAbstract
             then type_info.typeNameHash else old(defaultTypeNameHash)
    {
      if initialized {
        return false;
      }
      if defaultTypeNameHash == 0 && type_info.isAbstract == false {
        defaultTypeNameHash := type_info.typeNameHash;
      }
      typeInfoList := [type_info] + typeInfoList;
      ok := true;
    }

    method FinalizeList()
      modifies this
      ensures initialized && typeInfoList == [] && database == Database(old(typeInfoList))
      ensures defaultTypeNameHash == old(defaultTypeNameHash)
      ensures (exists i :: 0 <= i < |database| && database[i].typeNameHash == defaultTypeNameHash) ==>
        && defaultTypeClassId < |database|
        && database[defaultTypeClassId].typeNameHash == defaultTypeNameHash
    {
      hide Sort, Concrete, Finished;
      var all_reg_info := CollectConcrete();
      all_reg_info := Sort(all_reg_info);
      database := [];
      var class_id := 0;
      while class_id < |all_reg_info|
        invariant 0 <= class_id == |database| <= |all_reg_info|
        invariant defaultTypeNameHash == old(defaultTypeNameHash)
        invariant forall i :: 0 <= i < class_id ==> database[i] == Finished(all_reg_info, i)
        invariant (exists i :: 0 <= i < class_id && database[i].typeNameHash == defaultTypeNameHash) ==>
          defaultTypeClassId < class_id && database[defaultTypeClassId].typeNameHash == defaultTypeNameHash
      {
        var info := Complete(all_reg_info, class_id);
        if info.typeNameHash == defaultTypeNameHash {
          defaultTypeClassId := |database|;
        }
        database := database + [info];
        class_id := class_id + 1;
      }
      assert database == Database(old(typeInfoList));
      typeInfoList := [];
      initialized := true;
    }

    /** Fills in the ids of a type and of its parent. */
    method Complete(all_reg_info: seq<TypeInfo>, class_id: nat) returns (info: TypeInfo)
      requires class_id < |all_reg_info|
      ensures info == Finished(all_reg_info, class_id)
    {
      info := all_reg_info[class_id].(classId := class_id);
      if info.parentIdHash != INVALID_TYPE_HASH {
        var base_index := 0;
        while base_index < |all_reg_info|
          invariant 0 <= base_index <= |all_reg_info|
          invariant FindHash(all_reg_info, info.parentIdHash, 0)
              == FindHash(all_reg_info, info.parentIdHash, base_index)
        {
          if all_reg_info[base_index].typeIdHash == info.parentIdHash {
            info := info.(parentClassId := base_index);
            break;
          }
          base_index := base_index + 1;
        }
      }
    }

    /** Goes through the list of registrations. */
    method CollectConcrete() returns (all_reg_info: seq<TypeInfo>)
      ensures all_reg_info == Concrete(typeInfoList)
    {
      all_reg_info := [];
      var rest := typeInfoList;
      assert [] + Concrete(rest) == Concrete(rest);
      while rest != []
        invariant all_reg_info + Concrete(rest) == Concrete(typeInfoList)
        decreases |rest|
      {
        if !rest[0].isAbstract {
          assert all_reg_info + ([rest[0]] + Concrete(rest[1..])) == all_reg_info + [rest[0]] + Concrete(rest[1..]);
          all_reg_info := all_reg_info + [rest[0]];
        }
        rest := rest[1..];
      }
      assert all_reg_info + [] == all_reg_info;
    }

    /** The first use hands out the ids; an unknown type throws. */
    method GetClassId(type_hash: nat) returns (id: Option<nat>)
      modifies this
      ensures initialized
      ensures database == if old(initialized) then old(database) else Database(old(typeInfoList))
      ensures id == FindHash(database, type_hash, 0)
    {
      if !initialized {
        FinalizeList();
      }
      var index := 0;
      while index < |database|
        invariant 0 <= index <= |database|
        invariant FindHash(database, type_hash, 0) == FindHash(database, type_hash, index)
      {
        if database[index].typeIdHash == type_hash {
          return Some(index);
        }
        index := index + 1;
      }
      id := None;
    }

    /** Terminates, and says whether the base is among the class and its ancestors. */
    method InheritsFrom(class_id: nat, base_class_id: nat) returns (b: bool)
      requires WellLinked(database) && Acyclic(database)
      requires class_id < |database| || class_id == INVALID_CLASS_ID
      ensures b <==> Inherits(database, class_id, base_class_id)
    {
      hide Climb, Reached;
      var id: nat := class_id;
      ghost var climbed: nat := 0;
      assert Rooted(database, class_id);
      ghost var top: nat :| Climb(database, class_id, top).None?;
      StartsHere(database, class_id);
      while id != INVALID_CLASS_ID
        invariant id < |database| || id == INVALID_CLASS_ID
        invariant climbed <= top && Reached(database, class_id, climbed, id)
        invariant forall m: nat :: m < climbed ==> Climb(database, class_id, m) != Some(base_class_id)
        decreases top - climbed
      {
        ReachedHere(database, class_id, climbed, id);
        if id == base_class_id {
          return true;
        }
        NotBeyond(database, class_id, climbed, top);
        OneUp(database, class_id, climbed, id);
        id := database[id].parentClassId;
        climbed := climbed + 1;
      }
      ReachedHere(database, class_id, climbed, id);
      forall n: nat ensures Climb(database, class_id, n) != Some(base_class_id) {
        if n >= climbed { BeyondRoot(database, class_id, climbed, n); }
      }
      b := false;
    }
  }

  lemma StartsHere(db: seq<TypeInfo>, class_id: nat)
    ensures Reached(db, class_id, 0, class_id)
  {
  }

  lemma NotBeyond(db: seq<TypeInfo>, id: nat, n: nat, top: nat)
    requires Climb(db, id, n).Some? && Climb(db, id, top).None?
    ensures n < top
  {
    if top <= n { BeyondRoot(db, id, top, n); }
  }

  lemma OneUp(db: seq<TypeInfo>, class_id: nat, climbed: nat, id: nat)
    requires id < |db| && Reached(db, class_id, climbed, id)
    ensures Reached(db, class_id, climbed + 1, db[id].parentClassId)
  {
    forall m: nat ensures Climb(db, class_id, climbed + 1 + m) == Climb(db, db[id].parentClassId, m) {
      assert Climb(db, class_id, climbed + (m + 1)) == Climb(db, id, m + 1);
    }
  }

  /** Types registered in any order and then asked about: the database says what the types
      declare, and nothing about a type that is not registered. */
  method AskInheritance(infos: seq<TypeInfo>, hash: nat, base: nat) returns (b: Option<bool>)
    requires Registered(infos) && AcyclicHashes(Concrete(infos))
    ensures b.None? <==> FindHash(Concrete(infos), hash, 0).None? || FindHash(Concrete(infos), base, 0).None?
    ensures b.Some? ==> (b.value <==> Declares(Concrete(infos), hash, base))
  {
    hide Registered, AcyclicHashes, Sort, Concrete, FindHash, Declares, Inherits, Database;
    var db := new TypeDatabase();
    var i := 0;
    while i < |infos|
      invariant 0 <= i <= |infos| && !db.initialized && db.typeInfoList == Reversed(infos[..i])
    {
      var ok := db.AddClass(infos[i]);
      assert infos[..i + 1] == infos[..i] + [infos[i]];
      ReversedMore(infos[..i], infos[i]);
      i := i + 1;
    }
    assert infos[..i] == infos;
    ReversedDatabase(infos);
    var id := db.GetClassId(hash);
    var base_id := db.GetClassId(base);
    Looked(infos, hash);
    Looked(infos, base);
    if id.None? || base_id.None? {
      return None;
    }
    DatabaseEnds(infos);
    InheritsAsDeclared(infos, id.value, base_id.value);
    var inherits := db.InheritsFrom(id.value, base_id.value);
    b := Some(inherits);
  }

  function Reversed(infos: seq<TypeInfo>): seq<TypeInfo>
  {
    if infos == [] then [] else Reversed(infos[1..]) + [infos[0]]
  }

  lemma {:induction false} ReversedMore(infos: seq<TypeInfo>, x: TypeInfo)
    ensures Reversed(infos + [x]) == [x] + Reversed(infos)
    decreases |infos|
  {
    if infos == [] {
      assert infos + [x] == [x];
    } else {
      assert (infos + [x])[1..] == infos[1..] + [x];
      ReversedMore(infos[1..], x);
    }
  }

  lemma {:induction false} ReversedMembers(infos: seq<TypeInfo>)
    ensures SameMembers(Reversed(infos), infos) && |Reversed(infos)| == |infos|
    decreases |infos|
  {
    if infos != [] {
      ReversedMembers(infos[1..]);
      assert infos == [infos[0]] + infos[1..];
    }
  }

  lemma {:induction false} ReversedNames(infos: seq<TypeInfo>)
    requires DistinctNames(infos)
    ensures DistinctNames(Reversed(infos))
    decreases |infos|
  {
    if infos != [] {
      ReversedNames(infos[1..]);
      ReversedMembers(infos[1..]);
      var tail := Reversed(infos[1..]);
      forall i | 0 <= i < |tail| ensures tail[i].className != infos[0].className {
        assert tail[i] in tail && tail[i] in infos[1..];
      }
    }
  }

  /** The list grows at the front; the database is the same. */
  lemma ReversedDatabase(infos: seq<TypeInfo>)
    requires Registered(infos)
    ensures Database(Reversed(infos)) == Database(infos)
  {
    hide Database, Concrete;
    ReversedMembers(infos);
    ReversedNames(infos);
    IdsIgnoreOrder(Reversed(infos), infos);
  }

  /** A type is found in the database exactly when it is registered. */
  lemma Looked(infos: seq<TypeInfo>, hash: nat)
    requires Registered(infos)
    ensures FindHash(Database(infos), hash, 0).None? <==> FindHash(Concrete(infos), hash, 0).None?
  {
    hide Sort, Concrete, Database;
    var at := FindHash(Database(infos), hash, 0);
    if at.Some? {
      SameType(infos, at.value);
    } else {
      NoParent(infos, hash);
    }
  }
}
