/** Relations kept as a forward and a reverse index, and how joining and leaving move them. */
module Relations {
  type Relation<K, V> = map<K, set<V>>

  ghost predicate Related<K, V>(m: Relation<K, V>, p: K, id: V)
  {
    p in m && id in m[p]
  }

  /** `id` joins the keys `ps`. */
  ghost function Joined<K, V>(m: Relation<K, V>, ps: set<K>, id: V): Relation<K, V>
  {
    map p | p in m.Keys + ps :: (if p in m then m[p] else {}) + if p in ps then {id} else {}
  }

  /** `id` leaves the keys `ps`; a key without values is gone. */
  ghost function Parted<K, V>(m: Relation<K, V>, ps: set<K>, id: V): Relation<K, V>
  {
    map p | p in m && !(p in ps && m[p] <= {id}) :: if p in ps then m[p] - {id} else m[p]
  }

  /** The two indexes say the same, and no key is kept without values. */
  ghost predicate Inverse<K(!new), V(!new)>(m: Relation<K, V>, own: Relation<V, K>)
  {
    && (forall p :: p in m ==> m[p] != {})
    && forall p, id :: Related(m, p, id) <==> Related(own, id, p)
  }

  lemma JoinedNone<K, V>(m: Relation<K, V>, id: V)
    ensures Joined(m, {}, id) == m
  {
    var a := Joined(m, {}, id);
    assert a.Keys == m.Keys;
    forall q | q in a ensures a[q] == m[q] { }
  }

  lemma JoinedMore<K, V>(m: Relation<K, V>, ps: set<K>, p: K, id: V)
    ensures Joined(Joined(m, ps, id), {p}, id) == Joined(m, ps + {p}, id)
  {
    var a, b := Joined(Joined(m, ps, id), {p}, id), Joined(m, ps + {p}, id);
    assert a.Keys == b.Keys;
    forall q | q in a ensures a[q] == b[q] { }
  }

  lemma JoinedOne<K, V>(m: Relation<K, V>, p: K, id: V)
    ensures Joined(m, {p}, id) == m[p := (if p in m then m[p] else {}) + {id}]
    ensures p !in m ==> Joined(m, {p}, id) == m[p := {}][p := {} + {id}]
    ensures Joined(m, {p}, id).Keys == m.Keys + {p}
    ensures p in m ==> m.Keys + {p} == m.Keys
  {
    var a, b := Joined(m, {p}, id), m[p := (if p in m then m[p] else {}) + {id}];
    assert a.Keys == b.Keys;
    forall q | q in a ensures a[q] == b[q] { }
  }

  lemma InverseJoin<K(!new), V(!new)>(m: Relation<K, V>, own: Relation<V, K>, p: K, id: V)
    requires Inverse(m, own)
    ensures Inverse(Joined(m, {p}, id), own[id := (if id in own then own[id] else {}) + {p}])
  {
    var m', own' := Joined(m, {p}, id), own[id := (if id in own then own[id] else {}) + {p}];
    forall q, x ensures Related(m', q, x) <==> Related(own', x, q) {
      assert Related(m, q, x) <==> Related(own, x, q);
    }
  }

  lemma PartedNone<K, V>(m: Relation<K, V>, id: V)
    ensures Parted(m, {}, id) == m
  {
    var a := Parted(m, {}, id);
    assert a.Keys == m.Keys;
    forall q | q in a ensures a[q] == m[q] { }
  }

  lemma PartedMore<K, V>(m: Relation<K, V>, ps: set<K>, p: K, id: V)
    requires forall q :: q in m ==> m[q] != {}
    ensures Parted(Parted(m, ps, id), {p}, id) == Parted(m, ps + {p}, id)
  {
    var a, b := Parted(Parted(m, ps, id), {p}, id), Parted(m, ps + {p}, id);
    forall q ensures q in a <==> q in b { PartedAt(m, ps, p, id, q); }
    forall q | q in a ensures a[q] == b[q] { PartedAt(m, ps, p, id, q); }
  }

  lemma PartedAt<K, V>(m: Relation<K, V>, ps: set<K>, p: K, id: V, q: K)
    requires q in m ==> m[q] != {}
    ensures var a, b := Parted(Parted(m, ps, id), {p}, id), Parted(m, ps + {p}, id);
            (q in a <==> q in b) && (q in a ==> a[q] == b[q])
  {
    if q in m {
      assert m[q] - {id} <= {id} ==> m[q] <= {id};
      assert m[q] - {id} - {id} == m[q] - {id};
    }
  }

  lemma PartedOne<K, V>(m: Relation<K, V>, p: K, id: V)
    ensures p !in m ==> Parted(m, {p}, id) == m
    ensures p in m && m[p] - {id} != {} ==>
              Parted(m, {p}, id) == m[p := m[p] - {id}] && Parted(m, {p}, id).Keys == m.Keys
    ensures p in m && m[p] - {id} == {} ==> Parted(m, {p}, id) == m - {p} == m[p := m[p] - {id}] - {p}
    ensures p in m ==> m[p := m[p] - {id}].Keys == m.Keys
  {
    var a := Parted(m, {p}, id);
    forall q | q in a ensures q in m && a[q] == if q == p then m[q] - {id} else m[q] { }
    if p !in m { assert a.Keys == m.Keys; }
    else if m[p] - {id} != {} {
      assert !(m[p] <= {id});
      assert a.Keys == m.Keys;
    } else {
      assert m[p] <= {id};
      assert a.Keys == m.Keys - {p};
    }
  }

  /** Leaving one's own keys is leaving them all. */
  lemma PartedOwn<K(!new), V(!new)>(m: Relation<K, V>, own: Relation<V, K>, id: V)
    requires Inverse(m, own)
    ensures Parted(m, if id in own then own[id] else {}, id) == Parted(m, m.Keys, id)
  {
    var mine := if id in own then own[id] else {};
    var a, b := Parted(m, mine, id), Parted(m, m.Keys, id);
    forall q | q in m ensures q in mine <==> id in m[q] { assert Related(m, q, id) <==> Related(own, id, q); }
    forall q | q in m ensures (q in a <==> q in b) && (q in a ==> a[q] == b[q]) {
      if q !in mine {
        assert m[q] - {id} == m[q];
      }
    }
  }

  lemma InversePart<K(!new), V(!new)>(m: Relation<K, V>, own: Relation<V, K>, p: K, id: V)
    requires Inverse(m, own)
    ensures Inverse(Parted(m, {p}, id), if id in own then own[id := own[id] - {p}] else own)
  {
    var m', own' := Parted(m, {p}, id), if id in own then own[id := own[id] - {p}] else own;
    forall q, x ensures Related(m', q, x) <==> Related(own', x, q) {
      assert Related(m, q, x) <==> Related(own, x, q);
    }
  }

  lemma InverseGone<K(!new), V(!new)>(m: Relation<K, V>, own: Relation<V, K>, id: V)
    requires Inverse(m, own)
    ensures Inverse(Parted(m, m.Keys, id), own - {id})
  {
    forall q, x ensures Related(Parted(m, m.Keys, id), q, x) <==> Related(own - {id}, x, q) {
      assert Related(m, q, x) <==> Related(own, x, q);
    }
  }

  lemma Nonempty<K(!new), V(!new)>(m: Relation<K, V>, own: Relation<V, K>)
    requires Inverse(m, own)
    ensures forall p :: p in m ==> m[p] != {}
  {
  }

  lemma AnyOf<T>(s: set<T>) returns (x: T)
    requires s != {}
    ensures x in s
  {
    x :| x in s;
  }
}
