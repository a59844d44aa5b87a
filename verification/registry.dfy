/**
 * The item registry both engines build once from the container's draggable
 * descendants: an object keyed by element id, filled in document order, that
 * throws on the first element whose id is empty or already present.
 */
module Registry {
  import opened Dom

  /** Every entry is stored under its own element's (non-empty) id. */
  ghost predicate KeyedById(reg: map<string, Element>)
  {
    forall k | k in reg :: k != "" && reg[k].id == k
  }

  /** The corrected registration guard: the id is present and not yet registered. */
  predicate IdAccepted(reg: map<string, Element>, id: string)
  {
    id != "" && id !in reg
  }

  /**
   * Property names that an empty JavaScript object literal inherits from
   * Object.prototype; reading any of them yields a truthy value.
   */
  const InheritedNames: set<string> :=
    {"constructor", "hasOwnProperty", "isPrototypeOf", "propertyIsEnumerable",
     "toLocaleString", "toString", "valueOf", "__proto__",
     "__defineGetter__", "__defineSetter__", "__lookupGetter__", "__lookupSetter__"}

  /**
   * The guard `!item.id || items[item.id]` as written: the lookup on an object
   * literal also answers for the inherited names, so those ids are refused
   * although no registered element carries them.
   */
  predicate IdAcceptedAsWritten(reg: map<string, Element>, id: string)
  {
    id != "" && id !in reg && id !in InheritedNames
  }

  /** What a registration pass leaves behind and whether it ran to the end. */
  datatype Registration = Registration(registry: map<string, Element>, complete: bool)

  /** The registration pass over `found`, in order, stopping at the first refused id. */
  function Register(reg: map<string, Element>, found: seq<Element>): Registration
    decreases |found|
  {
    if found == [] then Registration(reg, true)
    else if !IdAccepted(reg, found[0].id) then Registration(reg, false)
    else Register(reg[found[0].id := found[0]], found[1..])
  }

  predicate DistinctIds(found: seq<Element>)
  {
    forall i, j | 0 <= i < j < |found| :: found[i].id != found[j].id
  }

  /** Every id in `found` is non-empty, not yet in `reg`, and the ids are pairwise distinct. */
  predicate Admissible(reg: map<string, Element>, found: seq<Element>)
  {
    (forall i | 0 <= i < |found| :: IdAccepted(reg, found[i].id)) && DistinctIds(found)
  }

  function IdsOf(found: seq<Element>): set<string>
  {
    set i | 0 <= i < |found| :: found[i].id
  }

  /** Admissibility of a non-empty sequence, one element at a time. */
  lemma AdmissibleCons(reg: map<string, Element>, found: seq<Element>)
    requires found != []
    ensures Admissible(reg, found) <==>
            IdAccepted(reg, found[0].id) && Admissible(reg[found[0].id := found[0]], found[1..])
  {
    var e, tail := found[0], found[1..];
    var reg' := reg[e.id := e];
    if Admissible(reg, found) {
      forall i | 0 <= i < |tail| ensures IdAccepted(reg', tail[i].id) {
        assert tail[i] == found[i + 1];
      }
      forall i, j | 0 <= i < j < |tail| ensures tail[i].id != tail[j].id {
        assert tail[i] == found[i + 1] && tail[j] == found[j + 1];
      }
    }
    if IdAccepted(reg, e.id) && Admissible(reg', tail) {
      forall i | 0 <= i < |found| ensures IdAccepted(reg, found[i].id) {
        if i > 0 { assert found[i] == tail[i - 1]; }
      }
      forall i, j | 0 <= i < j < |found| ensures found[i].id != found[j].id {
        assert found[j] == tail[j - 1];
        if i > 0 { assert found[i] == tail[i - 1]; }
      }
    }
  }

  lemma IdsOfCons(found: seq<Element>)
    requires found != []
    ensures IdsOf(found) == {found[0].id} + IdsOf(found[1..])
  {
    forall x | x in IdsOf(found) ensures x in {found[0].id} + IdsOf(found[1..]) {
      var i :| 0 <= i < |found| && found[i].id == x;
      if i > 0 { assert found[1..][i - 1] == found[i]; }
    }
    forall x | x in IdsOf(found[1..]) ensures x in IdsOf(found) {
      var i :| 0 <= i < |found[1..]| && found[1..][i].id == x;
      assert found[i + 1].id == x;
    }
  }

  /** Registration succeeds exactly when every id is non-empty, fresh and unique. */
  lemma {:induction false} RegisterCompleteIff(reg: map<string, Element>, found: seq<Element>)
    ensures Register(reg, found).complete <==> Admissible(reg, found)
    decreases |found|
  {
    if found != [] {
      AdmissibleCons(reg, found);
      if IdAccepted(reg, found[0].id) {
        RegisterCompleteIff(reg[found[0].id := found[0]], found[1..]);
      }
    }
  }

  /**
   * A successful pass adds exactly one entry per element, under its own id,
   * and keeps every entry that was already there.
   */
  lemma {:induction false} RegisterContents(reg: map<string, Element>, found: seq<Element>)
    requires Admissible(reg, found)
    ensures Register(reg, found).registry.Keys == reg.Keys + IdsOf(found)
    ensures forall k | k in reg :: Register(reg, found).registry[k] == reg[k]
    ensures forall i | 0 <= i < |found| :: Register(reg, found).registry[found[i].id] == found[i]
    ensures |Register(reg, found).registry| == |reg| + |found|
    decreases |found|
  {
    if found != [] {
      var e, tail := found[0], found[1..];
      var reg' := reg[e.id := e];
      AdmissibleCons(reg, found);
      RegisterContents(reg', tail);
      IdsOfCons(found);
      var r := Register(reg', tail).registry;
      assert Register(reg, found).registry == r;
      assert e.id !in reg;
      assert |reg'| == |reg| + 1;
      assert r.Keys == reg.Keys + IdsOf(found);
      forall i | 0 <= i < |found| ensures r[found[i].id] == found[i] {
        if i > 0 { assert found[i] == tail[i - 1]; }
      }
    }
  }

  /** Registration only ever adds entries, even when it stops on a refused id. */
  lemma {:induction false} RegisterExtends(reg: map<string, Element>, found: seq<Element>)
    ensures reg.Keys <= Register(reg, found).registry.Keys
    ensures forall k | k in reg :: Register(reg, found).registry[k] == reg[k]
    decreases |found|
  {
    if found != [] && IdAccepted(reg, found[0].id) {
      RegisterExtends(reg[found[0].id := found[0]], found[1..]);
    }
  }

  /** A registry whose entries sit under their own ids stays so after a pass. */
  lemma {:induction false} RegisterKeepsKeyedById(reg: map<string, Element>, found: seq<Element>)
    requires KeyedById(reg)
    ensures KeyedById(Register(reg, found).registry)
    decreases |found|
  {
    if found != [] && IdAccepted(reg, found[0].id) {
      RegisterKeepsKeyedById(reg[found[0].id := found[0]], found[1..]);
    }
  }

  /** The registration pass as written, with the guard that also refuses inherited names. */
  function RegisterAsWritten(reg: map<string, Element>, found: seq<Element>): Registration
    decreases |found|
  {
    if found == [] then Registration(reg, true)
    else if !IdAcceptedAsWritten(reg, found[0].id) then Registration(reg, false)
    else RegisterAsWritten(reg[found[0].id := found[0]], found[1..])
  }

  /**
   * The pass as written completes exactly when the ids are admissible and
   * none of them is a name inherited from Object.prototype.
   */
  lemma {:induction false} RegisterAsWrittenCompleteIff(reg: map<string, Element>, found: seq<Element>)
    ensures RegisterAsWritten(reg, found).complete <==>
            Admissible(reg, found) && forall i | 0 <= i < |found| :: found[i].id !in InheritedNames
    decreases |found|
  {
    if found != [] {
      AdmissibleCons(reg, found);
      var tail := found[1..];
      if IdAcceptedAsWritten(reg, found[0].id) {
        RegisterAsWrittenCompleteIff(reg[found[0].id := found[0]], tail);
        assert (forall i | 0 <= i < |found| :: found[i].id !in InheritedNames) <==>
               found[0].id !in InheritedNames && forall i | 0 <= i < |tail| :: tail[i].id !in InheritedNames
        by {
          forall i | 0 < i < |found| ensures found[i] == tail[i - 1] { }
        }
      }
    }
  }

  /**
   * A single element whose id is "constructor" is admissible and the corrected
   * pass registers it, while the guard as written refuses it.
   */
  lemma InheritedNameRefusedAsWritten(e: Element)
    requires e.id == "constructor"
    ensures Register(map[], [e]).complete
    ensures !IdAcceptedAsWritten(map[], e.id)
  {
  }
}
