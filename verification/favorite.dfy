/** The favourite chapter of the goals page (`encontrarCapituloFavorito`).

    The code counts references into a plain object and then walks
    `Object.entries` keeping the first entry with a strictly larger count.
    Object keys that are not integer-like keep insertion order, so the walk
    visits references in the order of their first occurrence in the history.
    The object is modelled as that insertion order plus a count map. */
module Favorite {
  import opened Wrappers
  import opened State

  /** The reference of every history record, oldest first. */
  function References(h: seq<Entry>): (rs: seq<string>)
    ensures |rs| == |h|
    ensures forall i :: 0 <= i < |h| ==> rs[i] == h[i].reference
  {
    seq(|h|, i requires 0 <= i < |h| => h[i].reference)
  }

  /** How many times `x` occurs in `rs`. */
  function Occurrences(rs: seq<string>, x: string): nat {
    multiset(rs)[x]
  }

  /** Position of the first occurrence of `x` in `rs`. */
  function FirstIndex(rs: seq<string>, x: string): (i: nat)
    requires x in rs
    ensures i < |rs| && rs[i] == x
  {
    if rs[0] == x then 0 else 1 + FirstIndex(rs[1..], x)
  }

  /** Nothing before `FirstIndex(rs, x)` is `x`. */
  lemma {:induction false} FirstIndexIsFirst(rs: seq<string>, x: string, j: int)
    requires x in rs && 0 <= j < FirstIndex(rs, x)
    ensures rs[j] != x
  {
    if j > 0 {
      FirstIndexIsFirst(rs[1..], x, j - 1);
    }
  }

  /** Appending never moves the first occurrence of something already present. */
  lemma FirstIndexAppend(rs: seq<string>, y: string, x: string)
    requires x in rs
    ensures FirstIndex(rs + [y], x) == FirstIndex(rs, x)
  {
    var i := FirstIndex(rs, x);
    var k := FirstIndex(rs + [y], x);
    assert (rs + [y])[i] == x;
    if k < i {
      FirstIndexIsFirst(rs, x, k);
    } else if i < k {
      FirstIndexIsFirst(rs + [y], x, i);
    }
  }

  /** The counting object `contagem`: keys in insertion order, with counts. */
  datatype Tally = Tally(order: seq<string>, count: map<string, nat>)

  /** One step of the counting loop: adds one to the reference's count, or
      appends it as a new key with count 1. */
  function Bump(t: Tally, x: string): Tally {
    if x in t.count then Tally(t.order, t.count[x := t.count[x] + 1])
    else Tally(t.order + [x], t.count[x := 1])
  }

  /** Each key occurs once in the insertion order. */
  ghost predicate Distinct(order: seq<string>) {
    forall i, j :: 0 <= i < j < |order| ==> order[i] != order[j]
  }

  /** The keys are exactly the references counted, and the order lists them. */
  ghost predicate SameKeys(t: Tally, rs: seq<string>) {
    && (forall x :: x in t.count <==> x in t.order)
    && (forall x :: x in t.order <==> x in rs)
  }

  /** Keys are ordered by their first occurrence in `rs`. */
  ghost predicate FirstSeenOrder(order: seq<string>, rs: seq<string>)
    requires forall x :: x in order ==> x in rs
  {
    forall i, j :: 0 <= i < j < |order| ==> FirstIndex(rs, order[i]) < FirstIndex(rs, order[j])
  }

  /** What the counting object holds after counting `rs`: each reference of
      `rs` once, in order of first occurrence, with its number of occurrences. */
  ghost predicate Counts(t: Tally, rs: seq<string>) {
    && Distinct(t.order)
    && SameKeys(t, rs)
    && (forall x :: x in t.count ==> t.count[x] == Occurrences(rs, x))
    && FirstSeenOrder(t.order, rs)
  }

  /** Appending to the counted references keeps the keys in first-seen order. */
  lemma AppendKeepsOrder(order: seq<string>, p: seq<string>, y: string)
    requires forall x :: x in order ==> x in p
    requires FirstSeenOrder(order, p)
    ensures forall x :: x in order ==> x in p + [y]
    ensures FirstSeenOrder(order, p + [y])
  {
    forall i, j | 0 <= i < j < |order|
      ensures FirstIndex(p + [y], order[i]) < FirstIndex(p + [y], order[j])
    {
      FirstIndexAppend(p, y, order[i]);
      FirstIndexAppend(p, y, order[j]);
    }
  }

  /** Counting one more reference that is already a key. */
  lemma BumpKnown(t: Tally, p: seq<string>, y: string)
    requires Counts(t, p) && y in t.count
    ensures Counts(Bump(t, y), p + [y])
  {
    var rs := p + [y];
    assert multiset(rs) == multiset(p) + multiset{y};
    assert forall x :: x in rs <==> x in p;
    AppendKeepsOrder(t.order, p, y);
  }

  /** A reference seen for the first time goes after every key already
      present, in first-occurrence order too. */
  lemma AppendKeepsFirstSeenOrder(order: seq<string>, p: seq<string>, y: string)
    requires forall x :: x in order ==> x in p
    requires FirstSeenOrder(order, p) && y !in p
    ensures forall x :: x in order + [y] ==> x in p + [y]
    ensures FirstSeenOrder(order + [y], p + [y])
  {
    var rs := p + [y];
    var o := order + [y];
    assert FirstIndex(rs, y) == |p|;
    forall i, j | 0 <= i < j < |o|
      ensures FirstIndex(rs, o[i]) < FirstIndex(rs, o[j])
    {
      assert o[i] == order[i] && order[i] in p;
      FirstIndexAppend(p, y, o[i]);
      if j < |order| {
        assert o[j] == order[j];
        FirstIndexAppend(p, y, o[j]);
      }
    }
  }

  /** Counting a reference seen for the first time. */
  lemma BumpNew(t: Tally, p: seq<string>, y: string)
    requires Counts(t, p) && y !in t.count
    ensures Counts(Bump(t, y), p + [y])
  {
    var rs := p + [y];
    var u := Bump(t, y);
    assert u.order == t.order + [y];
    assert multiset(rs) == multiset(p) + multiset{y};
    assert y !in p;
    assert forall x :: x in rs <==> x in p || x == y;
    AppendKeepsFirstSeenOrder(t.order, p, y);
  }

  /** The counting object after the loop over `rs`: never more keys than
      references counted, and no key exactly when nothing was counted. */
  function TallyOf(rs: seq<string>): (t: Tally)
    ensures |t.order| <= |rs|
    ensures |t.order| == 0 <==> |rs| == 0
    decreases |rs|
  {
    if |rs| == 0 then Tally([], map[])
    else Bump(TallyOf(rs[..|rs| - 1]), rs[|rs| - 1])
  }

  /** What the counting loop leaves in the object: each reference of `rs`
      once, in order of first occurrence, with its number of occurrences. */
  lemma {:induction false} TallyOfCounts(rs: seq<string>)
    ensures Counts(TallyOf(rs), rs)
    decreases |rs|
  {
    if |rs| > 0 {
      var p := rs[..|rs| - 1];
      var y := rs[|rs| - 1];
      assert rs == p + [y];
      TallyOfCounts(p);
      if y in TallyOf(p).count {
        BumpKnown(TallyOf(p), p, y);
      } else {
        BumpNew(TallyOf(p), p, y);
      }
    }
  }

  /** Every key of the insertion order has a count. */
  ghost predicate Keyed(order: seq<string>, count: map<string, nat>) {
    forall k :: 0 <= k < |order| ==> order[k] in count
  }

  /** The scan over `Object.entries`: keep the first entry whose count
      beats the best so far. */
  function PickMax(order: seq<string>, count: map<string, nat>, best: nat, fav: Option<string>): (r: Option<string>)
    requires Keyed(order, count)
    // A favourite other than the incoming one is a key counted more than the incoming best.
    ensures r != fav ==> r.Some? && r.value in order && count[r.value] > best
    // A key counted more than the incoming best always displaces it.
    ensures (exists k :: 0 <= k < |order| && count[order[k]] > best) ==>
              r.Some? && r.value in order && count[r.value] > best
    decreases |order|
  {
    if |order| == 0 then fav
    else if count[order[0]] > best then PickMax(order[1..], count, count[order[0]], Some(order[0]))
    else PickMax(order[1..], count, best, fav)
  }

  /** Position `k` holds a maximal count, and every earlier position a
      strictly smaller one. */
  ghost predicate FirstMaxAt(order: seq<string>, count: map<string, nat>, k: int)
    requires Keyed(order, count)
  {
    && 0 <= k < |order|
    && (forall j :: 0 <= j < |order| ==> count[order[j]] <= count[order[k]])
    && (forall j :: 0 <= j < k ==> count[order[j]] < count[order[k]])
  }

  /** A first maximum of the tail that beats the head is a first maximum of
      the whole order, one position later. */
  lemma FirstMaxShifts(order: seq<string>, count: map<string, nat>, k: int)
    requires Keyed(order, count) && |order| > 0
    requires Keyed(order[1..], count) && FirstMaxAt(order[1..], count, k)
    requires count[order[0]] < count[order[1..][k]]
    ensures FirstMaxAt(order, count, k + 1) && order[k + 1] == order[1..][k]
  {
    var rest := order[1..];
    assert forall j :: 1 <= j < |order| ==> order[j] == rest[j - 1];
  }

  /** When no count beats the incoming best, the incoming favourite stays. */
  lemma {:induction false} PickMaxKeepsFavorite(order: seq<string>, count: map<string, nat>, best: nat, fav: Option<string>)
    requires Keyed(order, count)
    requires forall k :: 0 <= k < |order| ==> count[order[k]] <= best
    ensures PickMax(order, count, best, fav) == fav
    decreases |order|
  {
    if |order| > 0 {
      assert forall j :: 0 <= j < |order| - 1 ==> order[1..][j] == order[j + 1];
      PickMaxKeepsFavorite(order[1..], count, best, fav);
    }
  }

  /** When some count beats the incoming best, the scan returns the first
      key of maximal count. */
  lemma {:induction false} PickMaxFindsFirstMax(order: seq<string>, count: map<string, nat>, best: nat, fav: Option<string>)
    requires Keyed(order, count)
    requires exists k :: 0 <= k < |order| && count[order[k]] > best
    ensures exists k :: && FirstMaxAt(order, count, k)
                        && count[order[k]] > best
                        && PickMax(order, count, best, fav) == Some(order[k])
    decreases |order|
  {
    var rest := order[1..];
    assert forall j :: 0 <= j < |rest| ==> rest[j] == order[j + 1];
    var top := count[order[0]];
    if top > best && forall j :: 0 <= j < |rest| ==> count[rest[j]] <= top {
      PickMaxKeepsFavorite(rest, count, top, Some(order[0]));
      assert FirstMaxAt(order, count, 0);
    } else {
      var best' := if top > best then top else best;
      var fav' := if top > best then Some(order[0]) else fav;
      var k0 :| 0 <= k0 < |order| && count[order[k0]] > best;
      assert exists j :: 0 <= j < |rest| && count[rest[j]] > best' by {
        if top <= best {
          assert k0 > 0 && rest[k0 - 1] == order[k0];
        }
      }
      assert PickMax(order, count, best, fav) == PickMax(rest, count, best', fav');
      PickMaxFindsFirstMax(rest, count, best', fav');
      var k' :| FirstMaxAt(rest, count, k') && count[rest[k']] > best'
                && PickMax(rest, count, best', fav') == Some(rest[k']);
      FirstMaxShifts(order, count, k');
    }
  }

  /** A non-empty history gives some key a positive count. */
  lemma SomeKeyCounted(t: Tally, rs: seq<string>)
    requires Counts(t, rs) && |rs| > 0
    ensures Keyed(t.order, t.count)
    ensures exists k :: 0 <= k < |t.order| && t.count[t.order[k]] > 0
  {
    assert rs[0] in t.order;
    var i :| 0 <= i < |t.order| && t.order[i] == rs[0];
    assert t.count[t.order[i]] > 0;
  }

  /** `encontrarCapituloFavorito`: `None` stands for the code's `null`. */
  function FavoriteOf(h: seq<Entry>): (r: Option<string>)
    ensures r.None? <==> |h| == 0
    ensures r.Some? ==> r.value in References(h)
  {
    var rs := References(h);
    var t := TallyOf(rs);
    TallyOfCounts(rs);
    assert Keyed(t.order, t.count);
    if |h| > 0 then
      SomeKeyCounted(t, rs);
      PickMaxFindsFirstMax(t.order, t.count, 0, None);
      PickMax(t.order, t.count, 0, None)
    else
      PickMax(t.order, t.count, 0, None)
  }

  /** The key the scan settles on for a non-empty history: a key of maximal
      count with every earlier key counted strictly less. */
  lemma FavoriteSlot(h: seq<Entry>) returns (t: Tally, k: nat)
    requires |h| > 0
    ensures t == TallyOf(References(h)) && Counts(t, References(h))
    ensures Keyed(t.order, t.count) && FirstMaxAt(t.order, t.count, k)
    ensures FavoriteOf(h) == Some(t.order[k])
  {
    var rs := References(h);
    t := TallyOf(rs);
    TallyOfCounts(rs);
    SomeKeyCounted(t, rs);
    PickMaxFindsFirstMax(t.order, t.count, 0, None);
    k :| FirstMaxAt(t.order, t.count, k) && FavoriteOf(h) == Some(t.order[k]);
  }

  /** The favourite is a reference of the history read at least as often
      as any other. */
  lemma FavoriteIsMostRead(h: seq<Entry>)
    requires FavoriteOf(h).Some?
    ensures FavoriteOf(h).value in References(h)
    ensures forall x :: Occurrences(References(h), x) <= Occurrences(References(h), FavoriteOf(h).value)
  {
    var rs := References(h);
    var t, k := FavoriteSlot(h);
    forall x
      ensures Occurrences(rs, x) <= Occurrences(rs, t.order[k])
    {
      if x in rs {
        var j :| 0 <= j < |t.order| && t.order[j] == x;
      }
    }
  }

  /** Among references read as often as the favourite, the favourite is
      the one whose first reading comes first. */
  lemma FavoriteIsFirstReadOfTied(h: seq<Entry>, x: string)
    requires FavoriteOf(h).Some?
    requires x in References(h) && x != FavoriteOf(h).value
    requires Occurrences(References(h), x) == Occurrences(References(h), FavoriteOf(h).value)
    ensures FavoriteOf(h).value in References(h)
    ensures FirstIndex(References(h), FavoriteOf(h).value) < FirstIndex(References(h), x)
  {
    var t, k := FavoriteSlot(h);
    var j :| 0 <= j < |t.order| && t.order[j] == x;
    assert j != k;
  }

  /** A history whose first reference is read at least as often as any
      other has that reference as its favourite. */
  lemma FavoriteWhenFirstIsMostRead(h: seq<Entry>)
    requires |h| > 0
    requires forall x :: Occurrences(References(h), x) <= Occurrences(References(h), h[0].reference)
    ensures FavoriteOf(h) == Some(h[0].reference)
  {
    var rs := References(h);
    var first := h[0].reference;
    assert rs[0] == first;
    FavoriteIsMostRead(h);
    var fav := FavoriteOf(h).value;
    if fav != first {
      assert FirstIndex(rs, first) == 0;
      FavoriteIsFirstReadOfTied(h, first);
    }
  }

  /** "A" and "B" read twice each and nothing else: no reference beats "A". */
  lemma TwoReadsEach(rs: seq<string>)
    requires multiset(rs) == multiset{"A", "A", "B", "B"}
    ensures forall x :: Occurrences(rs, x) <= Occurrences(rs, "A")
  {
  }

  /** Two references read twice each: the one read first wins, whichever
      of them reached two first. */
  lemma FavoriteTieGoesToFirstRead(h: seq<Entry>)
    requires References(h) == ["A", "B", "B", "A"] || References(h) == ["A", "B", "A", "B"]
    ensures FavoriteOf(h) == Some("A")
  {
    var rs := References(h);
    assert rs[0] == "A";
    assert multiset(rs) == multiset{"A", "A", "B", "B"};
    TwoReadsEach(rs);
    FavoriteWhenFirstIsMostRead(h);
  }
}
