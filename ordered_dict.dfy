/** An insertion-ordered dictionary with string keys: the semantics of a Python
    `dict` as the style picker uses it (`d[k] = v`, iteration in insertion order). */
module OrderedDict {

  datatype Option<T> = None | Some(value: T)

  /** `order` lists the keys by first insertion; `table` holds the values. */
  datatype Dict<V> = Dict(order: seq<string>, table: map<string, V>)
  {
    ghost predicate Valid() {
      && (forall i, j :: 0 <= i < j < |order| ==> order[i] != order[j])
      && (forall k :: k in table <==> k in order)
    }
  }

  function Empty<V>(): (r: Dict<V>)
    ensures r.Valid() && r.order == [] && r.table == map[]
  {
    Dict([], map[])
  }

  /** `d[k] = v`: a new key is appended, an existing key keeps its position. */
  function Put<V>(d: Dict<V>, k: string, v: V): (r: Dict<V>)
    requires d.Valid()
    ensures r.Valid()
    ensures r.table == d.table[k := v]
    ensures k in d.table ==> r.order == d.order
    ensures k !in d.table ==> r.order == d.order + [k]
  {
    if k in d.table then Dict(d.order, d.table[k := v]) else Dict(d.order + [k], d.table[k := v])
  }

  /** The assignments `d[k] = v` for each pair of `ps`, left to right. */
  function PutAll<V>(d: Dict<V>, ps: seq<(string, V)>): (r: Dict<V>)
    requires d.Valid()
    ensures r.Valid()
    decreases |ps|
  {
    if ps == [] then d else PutAll(Put(d, ps[0].0, ps[0].1), ps[1..])
  }

  /** Assigning `a` then `b` is assigning `a + b`. */
  lemma {:induction false} PutAllAppend<V>(d: Dict<V>, a: seq<(string, V)>, b: seq<(string, V)>)
    requires d.Valid()
    ensures PutAll(d, a + b) == PutAll(PutAll(d, a), b)
    decreases |a|
  {
    if a == [] {
      assert a + b == b;
    } else {
      assert (a + b)[0] == a[0] && (a + b)[1..] == a[1..] + b;
      PutAllAppend(Put(d, a[0].0, a[0].1), a[1..], b);
    }
  }

  function KeysOf<V>(ps: seq<(string, V)>): (ks: seq<string>)
    ensures |ks| == |ps|
    ensures forall i :: 0 <= i < |ps| ==> ks[i] == ps[i].0
  {
    if ps == [] then [] else [ps[0].0] + KeysOf(ps[1..])
  }

  lemma KeysOfAppend<V>(a: seq<(string, V)>, b: seq<(string, V)>)
    ensures KeysOf(a + b) == KeysOf(a) + KeysOf(b)
  {
    assert forall i :: 0 <= i < |a| + |b| ==> KeysOf(a + b)[i] == (KeysOf(a) + KeysOf(b))[i];
  }

  /** Position of the first occurrence of `k` in `ks`. */
  function FirstIndex(ks: seq<string>, k: string): (i: nat)
    requires k in ks
    ensures i < |ks| && ks[i] == k
    ensures forall j :: 0 <= j < i ==> ks[j] != k
  {
    if ks[0] == k then 0 else 1 + FirstIndex(ks[1..], k)
  }

  /** The value of the last pair of `ps` whose key is `k`, if any. */
  function LastValue<V>(ps: seq<(string, V)>, k: string): (r: Option<V>)
    ensures r.None? <==> k !in KeysOf(ps)
    ensures r.Some? ==> exists j :: 0 <= j < |ps| && ps[j] == (k, r.value)
                                    && forall j' :: j < j' < |ps| ==> ps[j'].0 != k
  {
    if ps == [] then None
    else
      var rest := LastValue(ps[1..], k);
      if rest.Some? then
        ghost var j :| 0 <= j < |ps[1..]| && ps[1..][j] == (k, rest.value)
                       && forall j' :: j < j' < |ps[1..]| ==> ps[1..][j'].0 != k;
        assert ps[j + 1] == (k, rest.value);
        rest
      else if ps[0].0 == k then Some(ps[0].1)
      else None
  }

  /** The last value of a key in `a + b` is its last value in `b` if `b` assigns it,
      and its last value in `a` otherwise. */
  lemma {:induction false} LastValueAppend<V>(a: seq<(string, V)>, b: seq<(string, V)>, k: string)
    ensures LastValue(a + b, k) == if k in KeysOf(b) then LastValue(b, k) else LastValue(a, k)
    decreases |a|
  {
    if a == [] {
      assert a + b == b;
    } else {
      assert (a + b)[0] == a[0] && (a + b)[1..] == a[1..] + b;
      LastValueAppend(a[1..], b, k);
    }
  }

  /** The pairs `(k, d.table[k])` for the keys `ks`, in that order. */
  function EntriesOf<V>(d: Dict<V>, ks: seq<string>): (es: seq<(string, V)>)
    requires forall k :: k in ks ==> k in d.table
    ensures |es| == |ks|
    ensures forall i :: 0 <= i < |ks| ==> es[i] == (ks[i], d.table[ks[i]])
  {
    if ks == [] then [] else [(ks[0], d.table[ks[0]])] + EntriesOf(d, ks[1..])
  }

  /** Later assignments win: after `PutAll(d, ps)` a key holds the value of its last
      pair in `ps`, and a key that `ps` does not mention keeps its value in `d`. */
  lemma {:induction false} PutAllLastWins<V>(d: Dict<V>, ps: seq<(string, V)>, k: string)
    requires d.Valid()
    ensures var r := PutAll(d, ps);
            match LastValue(ps, k)
            case Some(v) => k in r.table && r.table[k] == v
            case None => (k in r.table <==> k in d.table) && (k in d.table ==> r.table[k] == d.table[k])
    decreases |ps|
  {
    if ps != [] {
      PutAllLastWins(Put(d, ps[0].0, ps[0].1), ps[1..], k);
    }
  }

  /** Keys already present keep their positions; the keys `ps` adds follow them, each
      once, in the order in which `ps` first mentions them. */
  lemma {:induction false} PutAllOrder<V>(d: Dict<V>, ps: seq<(string, V)>)
    requires d.Valid()
    ensures var r := PutAll(d, ps).order;
            && d.order <= r
            && (forall a :: |d.order| <= a < |r| ==> r[a] !in d.table && r[a] in KeysOf(ps))
            && (forall a, b :: |d.order| <= a < b < |r| ==>
                  FirstIndex(KeysOf(ps), r[a]) < FirstIndex(KeysOf(ps), r[b]))
    decreases |ps|
  {
    if ps != [] {
      var d' := Put(d, ps[0].0, ps[0].1);
      PutAllOrder(d', ps[1..]);
      var r := PutAll(d, ps).order;
      var ks := KeysOf(ps);
      assert ks == [ps[0].0] + KeysOf(ps[1..]);
      forall a | |d'.order| <= a < |r|
        ensures r[a] != ps[0].0 && r[a] in ks
        ensures FirstIndex(ks, r[a]) == 1 + FirstIndex(KeysOf(ps[1..]), r[a])
      {
        assert r[a] !in d'.table;
      }
      forall a, b | |d.order| <= a < b < |r|
        ensures FirstIndex(ks, r[a]) < FirstIndex(ks, r[b])
      {
        if a < |d'.order| {
          assert r[a] == d'.order[a] == ps[0].0;
        }
      }
      forall a | |d.order| <= a < |r|
        ensures r[a] !in d.table && r[a] in ks
      {
        if a < |d'.order| {
          assert r[a] == d'.order[a] == ps[0].0;
        }
      }
    }
  }

  /** Inserting the entries of a dictionary, in its own order, into a dictionary that
      already holds a prefix of them rebuilds it. */
  lemma {:induction false} PutAllEntriesRebuilds<V>(p: Dict<V>, i: nat, d: Dict<V>)
    requires p.Valid() && i <= |p.order|
    requires d.Valid() && d.order == p.order[..i]
    requires d.table == map k | k in p.order[..i] :: p.table[k]
    ensures PutAll(d, EntriesOf(p, p.order[i..])) == p
    decreases |p.order| - i
  {
    var es := EntriesOf(p, p.order[i..]);
    if i == |p.order| {
      assert p.order[..i] == p.order;
      assert d.table == p.table;
      assert es == [];
    } else {
      var k := p.order[i];
      assert k !in d.order by {
        forall j | 0 <= j < i ensures p.order[j] != k { }
      }
      var d' := Put(d, k, p.table[k]);
      assert p.order[..i + 1] == p.order[..i] + [k];
      assert d'.table == map k' | k' in p.order[..i + 1] :: p.table[k'];
      assert es[1..] == EntriesOf(p, p.order[i + 1..]);
      PutAllEntriesRebuilds(p, i + 1, d');
    }
  }

  /** Rebuilding from the empty dictionary: `PutAll(Empty, entries of p) == p`. */
  lemma RebuildFromEntries<V>(p: Dict<V>)
    requires p.Valid()
    ensures PutAll(Empty(), EntriesOf(p, p.order)) == p
  {
    assert p.order[..0] == [];
    assert p.order[0..] == p.order;
    PutAllEntriesRebuilds(p, 0, Empty());
  }
}
