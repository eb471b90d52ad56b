/**
 A model of bimap.go: a string-to-string lookup table that can be searched by
 key or by value, kept as two maps, the forward table `m1` (key to value) and
 the reverse table `m2` (value to key).

 The Go type is used in two ways, and the model keeps them apart:
 - the lookups (`findByKey`, `findByValue`, `find`) have value receivers, so
   they see a copy of the struct: they are functions on the datatype `Tables`;
 - `insert` has a pointer receiver and updates both maps in place: it is a
   method of the class `BidirectionalMap`, specified by `Tables.Inserted`.
 */
module BiMap {

  datatype Option<T> = None | Some(value: T)

  /** The value of a BidirectionalMap struct: its forward and reverse tables. */
  datatype Tables = Tables(m1: map<string, string>, m2: map<string, string>)
  {
    /** The struct after `insert(key, value)`: both slots are written, nothing
        else changes, nothing is removed, and no stale entry is cleaned up. */
    function Inserted(key: string, value: string): (r: Tables)
      ensures r.m1.Keys == m1.Keys + {key} && r.m2.Keys == m2.Keys + {value}
      ensures r.m1[key] == value && r.m2[value] == key
      ensures forall k {:trigger m1[k]} :: k in m1 && k != key ==> r.m1[k] == m1[k]
      ensures forall v {:trigger m2[v]} :: v in m2 && v != value ==> r.m2[v] == m2[v]
    {
      Tables(m1[key := value], m2[value := key])
    }

    /** Forward lookup; the empty string stands for "not found", and is also
        what a key stored with the empty value yields. */
    function FindByKey(key: string): (r: string)
      ensures r != "" ==> key in m1 && m1[key] == r
      ensures r == "" <==> key !in m1 || m1[key] == ""
    {
      if key in m1 then m1[key] else ""
    }

    /** Reverse lookup, symmetric to FindByKey on the reverse table. */
    function FindByValue(value: string): (r: string)
      ensures r != "" ==> value in m2 && m2[value] == r
      ensures r == "" <==> value !in m2 || m2[value] == ""
    {
      if value in m2 then m2[value] else ""
    }

    /** Combined lookup: the forward table wins whenever `str` is one of its
        keys, whatever the reverse table holds. */
    function Find(str: string): (r: string)
      ensures str in m1 ==> r == m1[str]
      ensures str !in m1 && str in m2 ==> r == m2[str]
      ensures r == "" <==> if str in m1 then m1[str] == "" else str !in m2 || m2[str] == ""
    {
      if str in m1 then m1[str]
      else if str in m2 then m2[str]
      else ""
    }

    /** The struct after inserting `pairs` one after the other. */
    function InsertAll(pairs: seq<(string, string)>): (r: Tables)
      decreases |pairs|
    {
      if pairs == [] then this
      else
        var last := pairs[|pairs| - 1];
        InsertAll(pairs[..|pairs| - 1]).Inserted(last.0, last.1)
    }

    /** Every stored value can be looked up in the other table. */
    ghost predicate Linked()
    {
      && (forall k :: k in m1 ==> m1[k] in m2)
      && (forall v :: v in m2 ==> m2[v] in m1)
    }

    /** Each table is the exact inverse of the other (what the design aims at
        and what an overwrite breaks). */
    ghost predicate Mirrored()
    {
      && (forall k :: k in m1 ==> m1[k] in m2 && m2[m1[k]] == k)
      && (forall v :: v in m2 ==> m2[v] in m1 && m1[m2[v]] == v)
    }
  }

  /** The struct newBDMap allocates before copying anything in. */
  const Empty := Tables(map[], map[])

  /** The insertions newBDMap performs when it visits the keys of `from` in
      the order `order`. */
  function Entries(from: map<string, string>, order: seq<string>): (pairs: seq<(string, string)>)
    requires forall k :: k in order ==> k in from
    ensures |pairs| == |order|
    ensures forall j :: 0 <= j < |order| ==> pairs[j] == (order[j], from[order[j]])
    decreases |order|
  {
    if order == [] then []
    else Entries(from, order[..|order| - 1]) + [(order[|order| - 1], from[order[|order| - 1]])]
  }

  /** The keys visited so far. */
  ghost function Visited(order: seq<string>): (keys: set<string>)
  {
    set k | k in order
  }

  /** `t` holds exactly the entries of `from` whose keys are in `done`, and
      every reverse entry points at one of those keys. */
  ghost predicate Loaded(t: Tables, from: map<string, string>, done: set<string>)
  {
    && done <= from.Keys
    && t.m1.Keys == done
    && (forall k :: k in t.m1 ==> t.m1[k] == from[k])
    && t.m2.Keys == (set k | k in done :: from[k])
    && (forall v :: v in t.m2 ==> t.m2[v] in done && from[t.m2[v]] == v)
  }

  ghost predicate Injective(from: map<string, string>)
  {
    forall a, b :: a in from && b in from && from[a] == from[b] ==> a == b
  }

  /** The Go struct behind a *BidirectionalMap. */
  class BidirectionalMap {
    var m1: map<string, string>
    var m2: map<string, string>

    /** The composite literal of newBDMap, with two freshly made maps. */
    constructor ()
      ensures m1 == map[] && m2 == map[]
    {
      m1, m2 := map[], map[];
    }

    /** The copy of the struct a value receiver sees. */
    function Value(): (t: Tables)
      reads this
    {
      Tables(m1, m2)
    }

    method Insert(key: string, value: string)
      modifies this
      ensures Value() == old(Value()).Inserted(key, value)
      ensures old(Value()).Linked() ==> Value().Linked()
    {
      if Value().Linked() {
        InsertPreservesLinked(Value(), key, value);
      }
      m1, m2 := m1[key := value], m2[value := key];
    }
  }

  /** Allocates an empty map and inserts every entry of `from`, visiting its
      keys in an order the model leaves open, as Go's map iteration does. */
  method NewBDMap(from: Option<map<string, string>>) returns (bm: BidirectionalMap)
    ensures fresh(bm)
    ensures from.None? ==> bm.Value() == Empty
    ensures from.Some? ==> bm.m1 == from.value && bm.m2.Keys == from.value.Values
    ensures from.Some? ==> Loaded(bm.Value(), from.value, from.value.Keys)
    ensures bm.Value().Linked()
  {
    bm := new BidirectionalMap();
    if from.Some? {
      var source := from.value;
      var remaining := source.Keys;
      ghost var order: seq<string> := [];
      while remaining != {}
        invariant remaining <= source.Keys
        invariant forall k :: k in order ==> k in source
        invariant Visited(order) == source.Keys - remaining
        invariant bm.Value() == Empty.InsertAll(Entries(source, order))
        decreases remaining
      {
        var key :| key in remaining;
        bm.Insert(key, source[key]);
        VisitNext(source, order, key);
        order := order + [key];
        remaining := remaining - {key};
      }
      LoadedInOrder(source, order);
      LoadedComplete(bm.Value(), source);
    } else {
      LoadedComplete(Empty, map[]);
    }
  }

  /** The eight lines bimap.go's main prints. */
  const MainOutput := ["1", "", "one", "", "5", "five", "", ""]

  /** The eight lookups of bimap.go's main, in the order it prints them. */
  function MainLookups(t: Tables): (printed: seq<string>)
  {
    [t.FindByKey("one"), t.FindByKey("ten"),
     t.FindByValue("1"), t.FindByValue("10"),
     t.Find("five"), t.Find("5"), t.Find("twenty"), t.Find("20")]
  }

  /** The scenario of bimap.go's main, returning the eight strings it prints. */
  method Demo() returns (printed: seq<string>)
    ensures printed == MainOutput
  {
    var m := map["one" := "1", "two" := "2", "three" := "3"];
    var bm := NewBDMap(Some(m));
    ghost var inverse := map["1" := "one", "2" := "two", "3" := "three"];
    DemoSourceLoaded();
    LoadedUnique(bm.Value(), Tables(m, inverse), m);
    bm.Insert("four", "4");
    bm.Insert("five", "5");
    var t := bm.Value();
    assert t == Tables(m, inverse).Inserted("four", "4").Inserted("five", "5");
    DemoLookups();
    printed := MainLookups(t);
  }

  /** The lookups of main, on the struct main has built by then. */
  lemma DemoLookups()
    ensures MainLookups(Tables(map["one" := "1", "two" := "2", "three" := "3"],
                               map["1" := "one", "2" := "two", "3" := "three"])
                        .Inserted("four", "4").Inserted("five", "5")) == MainOutput
  {
  }

  // ---------------------------------------------------------------------------
  // Properties of insert
  // ---------------------------------------------------------------------------

  lemma InsertPreservesLinked(t: Tables, key: string, value: string)
    requires t.Linked()
    ensures t.Inserted(key, value).Linked()
  {
  }

  lemma InsertIdempotent(t: Tables, key: string, value: string)
    ensures t.Inserted(key, value).Inserted(key, value) == t.Inserted(key, value)
  {
  }

  /** Overwriting a key leaves the old value's reverse entry pointing at it. */
  lemma OverwriteLeavesStale(t: Tables, key: string, v1: string, v2: string)
    requires v1 != v2
    ensures t.Inserted(key, v1).Inserted(key, v2).FindByKey(key) == v2
    ensures t.Inserted(key, v1).Inserted(key, v2).FindByValue(v1) == key
    ensures !t.Inserted(key, v1).Inserted(key, v2).Mirrored()
  {
  }

  lemma InsertAllSnoc(t: Tables, pairs: seq<(string, string)>, key: string, value: string)
    ensures t.InsertAll(pairs + [(key, value)]) == t.InsertAll(pairs).Inserted(key, value)
  {
  }

  /** Visiting one more key performs one more insert, of that key's entry. */
  lemma VisitNext(from: map<string, string>, order: seq<string>, key: string)
    requires forall k :: k in order ==> k in from
    requires key in from
    ensures Empty.InsertAll(Entries(from, order + [key]))
         == Empty.InsertAll(Entries(from, order)).Inserted(key, from[key])
    ensures Visited(order + [key]) == Visited(order) + {key}
  {
  }

  /** A run of inserts only ever adds keys to either table, never removes one. */
  lemma {:induction false} InsertAllKeys(t: Tables, pairs: seq<(string, string)>)
    ensures t.InsertAll(pairs).m1.Keys == t.m1.Keys + (set p | p in pairs :: p.0)
    ensures t.InsertAll(pairs).m2.Keys == t.m2.Keys + (set p | p in pairs :: p.1)
    decreases |pairs|
  {
    if pairs != [] {
      var last := pairs[|pairs| - 1];
      InsertAllKeys(t, pairs[..|pairs| - 1]);
      assert pairs == pairs[..|pairs| - 1] + [last];
    }
  }

  /** A pair inserted with neither its key nor its value written again later
      can be found in both directions. */
  lemma {:induction false} LastWriteWins(t: Tables, pairs: seq<(string, string)>, i: nat)
    requires i < |pairs|
    requires forall j :: i < j < |pairs| ==> pairs[j].0 != pairs[i].0 && pairs[j].1 != pairs[i].1
    ensures t.InsertAll(pairs).FindByKey(pairs[i].0) == pairs[i].1
    ensures t.InsertAll(pairs).FindByValue(pairs[i].1) == pairs[i].0
  {
    if i < |pairs| - 1 {
      var prefix := pairs[..|pairs| - 1];
      LastWriteWins(t, prefix, i);
      assert pairs[i] in prefix;
    }
  }

  lemma {:induction false} InsertAllPreservesLinked(t: Tables, pairs: seq<(string, string)>)
    requires t.Linked()
    ensures t.InsertAll(pairs).Linked()
    decreases |pairs|
  {
    if pairs != [] {
      var last := pairs[|pairs| - 1];
      InsertAllPreservesLinked(t, pairs[..|pairs| - 1]);
      InsertPreservesLinked(t.InsertAll(pairs[..|pairs| - 1]), last.0, last.1);
    }
  }

  // ---------------------------------------------------------------------------
  // Properties of newBDMap, for every iteration order
  // ---------------------------------------------------------------------------

  lemma LoadedStep(t: Tables, from: map<string, string>, done: set<string>, key: string)
    requires Loaded(t, from, done) && key in from
    ensures Loaded(t.Inserted(key, from[key]), from, done + {key})
  {
  }

  /** Whatever order the keys of `from` are visited in, the forward table is
      a copy of `from` restricted to the visited keys and every reverse entry
      leads back to a key holding that value. */
  lemma {:induction false} LoadedInOrder(from: map<string, string>, order: seq<string>)
    requires forall k :: k in order ==> k in from
    ensures Loaded(Empty.InsertAll(Entries(from, order)), from, Visited(order))
    decreases |order|
  {
    if order != [] {
      var prefix, key := order[..|order| - 1], order[|order| - 1];
      assert Entries(from, order) == Entries(from, prefix) + [(key, from[key])];
      assert Visited(order) == Visited(prefix) + {key} by {
        assert order == prefix + [key];
      }
      InsertAllSnoc(Empty, Entries(from, prefix), key, from[key]);
      LoadedInOrder(from, prefix);
      LoadedStep(Empty.InsertAll(Entries(from, prefix)), from, Visited(prefix), key);
    }
  }

  /** Once every key is visited, the forward table equals the source, the
      reverse table's keys are exactly the source's values, and the two are
      Linked. */
  lemma LoadedComplete(t: Tables, from: map<string, string>)
    requires Loaded(t, from, from.Keys)
    ensures t.m1 == from && t.m2.Keys == from.Values && t.Linked()
  {
  }

  /** Without two keys sharing a value, the result of newBDMap does not
      depend on the iteration order. */
  lemma LoadedUnique(t: Tables, u: Tables, from: map<string, string>)
    requires Injective(from)
    requires Loaded(t, from, from.Keys) && Loaded(u, from, from.Keys)
    ensures t == u
  {
  }

  /** When several keys of `from` share a value, the reverse table keeps the
      one visited last, whatever the order. */
  lemma LastVisitedWins(from: map<string, string>, order: seq<string>, i: nat)
    requires forall k :: k in order ==> k in from
    requires i < |order|
    requires forall j :: i < j < |order| ==> from[order[j]] != from[order[i]]
    ensures Empty.InsertAll(Entries(from, order)).FindByValue(from[order[i]]) == order[i]
    ensures Empty.InsertAll(Entries(from, order)).FindByKey(order[i]) == from[order[i]]
  {
  }

  /** An example: with two keys sharing a value, the order decides which one the
      reverse table keeps. */
  lemma CollisionDependsOnOrder()
    ensures var from := map["one" := "1", "uno" := "1"];
      && Empty.InsertAll(Entries(from, ["one", "uno"])).FindByValue("1") == "uno"
      && Empty.InsertAll(Entries(from, ["uno", "one"])).FindByValue("1") == "one"
  {
  }

  lemma DemoSourceLoaded()
    ensures var m := map["one" := "1", "two" := "2", "three" := "3"];
      Injective(m) && Loaded(Tables(m, map["1" := "one", "2" := "two", "3" := "three"]), m, m.Keys)
  {
    var m := map["one" := "1", "two" := "2", "three" := "3"];
    assert (set k | k in m.Keys :: m[k]) == {"1", "2", "3"} by {
      assert m["one"] == "1" && m["two"] == "2" && m["three"] == "3";
    }
  }
}
