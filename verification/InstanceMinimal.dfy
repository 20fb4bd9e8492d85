/** When the choice of cnprocci/cncontract.c is minimal: it compares each entry with the best one so far
    only, and passes over sizes that are not given. */
module InstanceMinimal {
  import opened Basics
  import opened InstanceChoice

  datatype Size = Cores | Speed | Memory | Storage

  function At(s: Sizes, d: Size): int {
    match d
    case Cores => s.cores
    case Speed => s.speed
    case Memory => s.memory
    case Storage => s.storage
  }

  predicate Gives(s: Sizes, d: Size) { At(s, d) != 0 }

  // s gives every size that t gives.
  predicate Covers(s: Sizes, t: Sizes) { forall d :: Gives(t, d) ==> Gives(s, d) }

  predicate Shares(s: Sizes, t: Sizes) { exists d :: Gives(s, d) && Gives(t, d) }

  predicate NonNegative(s: Sizes) { forall d :: At(s, d) >= 0 }

  /** No feasible entry that is no larger in any size differs from the chosen one, and of equal ones the last
      is chosen. */
  predicate Minimal(r: Request, list: seq<Entry>) {
    forall i | 0 <= i < |list| && Feasible(r, list[i]) :: NotBetter(r, list, i)
  }

  predicate NotBetter(r: Request, list: seq<Entry>, i: nat)
    requires i < |list|
  {
    var k := Pick(r, list, |list|);
    k.Some? && (NoLarger(list[i].sizes, list[k.value].sizes) ==> list[i].sizes == list[k.value].sizes && i <= k.value)
  }

  // Entry c, which gives every size that i gives, may be chosen in spite of i: nothing behind c is sure to
  // displace it, and either i lacks a size of c or an entry between them lacks a size of i.
  predicate Misleads(r: Request, list: seq<Entry>, i: nat, c: nat) {
    && i < c < |list| && Feasible(r, list[i]) && Feasible(r, list[c])
    && Covers(list[c].sizes, list[i].sizes)
    && (forall e | c < e < |list| && Feasible(r, list[e]) :: Shares(list[e].sizes, list[c].sizes))
    && (!Covers(list[i].sizes, list[c].sizes) || Between(r, list, i, c))
  }

  predicate Between(r: Request, list: seq<Entry>, i: nat, c: nat)
    requires i < c < |list|
  {
    exists k | i < k < c :: Feasible(r, list[k]) && !Covers(list[k].sizes, list[i].sizes)
  }

  predicate Misleading(r: Request, list: seq<Entry>) {
    exists i, c | 0 <= i < c < |list| :: Misleads(r, list, i, c)
  }

  predicate Sensible(r: Request, list: seq<Entry>) {
    forall i | 0 <= i < |list| && Feasible(r, list[i]) :: NonNegative(list[i].sizes)
  }

  // ----- comparing size by size

  lemma BySize(s: Sizes, t: Sizes)
    ensures Replaces(s, t) <==> forall d :: Gives(s, d) && Gives(t, d) ==> At(s, d) <= At(t, d)
    ensures NoLarger(s, t) <==> forall d :: At(s, d) <= At(t, d)
    ensures s == t <==> forall d :: At(s, d) == At(t, d)
  {
    if forall d :: Gives(s, d) && Gives(t, d) ==> At(s, d) <= At(t, d) {
      assert Gives(s, Cores) <==> s.cores != 0;
      assert Gives(s, Speed) <==> s.speed != 0;
      assert Gives(s, Memory) <==> s.memory != 0;
      assert Gives(s, Storage) <==> s.storage != 0;
    }
    if forall d :: At(s, d) <= At(t, d) {
      assert At(s, Cores) <= At(t, Cores) && At(s, Speed) <= At(t, Speed);
      assert At(s, Memory) <= At(t, Memory) && At(s, Storage) <= At(t, Storage);
    }
    if forall d :: At(s, d) == At(t, d) {
      assert At(s, Cores) == At(t, Cores) && At(s, Speed) == At(t, Speed);
      assert At(s, Memory) == At(t, Memory) && At(s, Storage) == At(t, Storage);
    }
  }

  // ----- no misleading pair, then minimal

  // The best entry stays at or below i in every size that i gives, or below it in one of them.
  predicate Held(b: Sizes, i: Sizes) {
    || (forall d :: Gives(i, d) ==> Gives(b, d) && At(b, d) <= At(i, d))
    || (exists d :: Gives(i, d) && Gives(b, d) && At(b, d) < At(i, d))
  }

  lemma HeldOn(e: Sizes, b: Sizes, i: Sizes)
    requires Held(b, i) && Replaces(e, b) && Covers(e, i)
    ensures Held(e, i)
  {
    BySize(e, b);
    if d :| Gives(i, d) && Gives(b, d) && At(b, d) < At(i, d) {
      assert Gives(e, d) && At(e, d) < At(i, d);
    }
  }

  lemma HeldFirst(b: Sizes, i: Sizes)
    requires !Replaces(i, b)
    ensures Held(b, i) && !NoLarger(i, b)
  {
    BySize(i, b);
  }

  lemma {:induction false} HeldSince(r: Request, list: seq<Entry>, i: nat, n: nat)
    requires i < n <= |list| && Feasible(r, list[i])
    requires forall k | i < k < n && Feasible(r, list[k]) :: Covers(list[k].sizes, list[i].sizes)
    ensures Pick(r, list, n).Some? && Held(list[Pick(r, list, n).value].sizes, list[i].sizes)
    decreases n
  {
    hide Feasible, Replaces, Covers, Held;
    var before := Pick(r, list, n - 1);
    if i == n - 1 {
      HeldSelf(list[i].sizes);
      if before.Some? && !Replaces(list[i].sizes, list[before.value].sizes) {
        HeldFirst(list[before.value].sizes, list[i].sizes);
      }
    } else {
      HeldSince(r, list, i, n - 1);
      if Feasible(r, list[n - 1]) && Replaces(list[n - 1].sizes, list[before.value].sizes) {
        HeldOn(list[n - 1].sizes, list[before.value].sizes, list[i].sizes);
      }
    }
  }

  lemma HeldSelf(s: Sizes)
    ensures Held(s, s)
  {
  }

  // What comes after the best entry did not replace it, and what is at the best entry was there before.
  lemma {:induction false} NotReplaced(r: Request, list: seq<Entry>, n: nat)
    requires n <= |list| && Pick(r, list, n).Some?
    ensures forall e | Pick(r, list, n).value < e < n && Feasible(r, list[e]) ::
              !Replaces(list[e].sizes, list[Pick(r, list, n).value].sizes)
    ensures Pick(r, list, Pick(r, list, n).value + 1) == Pick(r, list, n)
    decreases n
  {
    hide Feasible, Replaces;
    if Pick(r, list, n).value < n - 1 {
      NotReplaced(r, list, n - 1);
    }
  }

  lemma SharesIfNot(s: Sizes, t: Sizes)
    requires !Replaces(s, t)
    ensures Shares(s, t)
  {
    BySize(s, t);
  }

  lemma HeldEqual(c: Sizes, i: Sizes)
    requires Held(c, i) && Covers(i, c) && NoLarger(i, c) && NonNegative(c) && NonNegative(i)
    ensures i == c
  {
    BySize(i, c);
    forall d
      ensures At(i, d) == At(c, d)
    {
      assert Gives(c, d) ==> Gives(i, d);
    }
  }

  lemma CoversLarger(i: Sizes, c: Sizes)
    requires NoLarger(i, c) && NonNegative(i)
    ensures Covers(c, i)
  {
    BySize(i, c);
  }

  /** A list of sensible sizes in which no pair misleads is chosen from minimally. */
  lemma ChoiceMinimal(r: Request, list: seq<Entry>)
    requires Sensible(r, list) && !Misleading(r, list)
    ensures Minimal(r, list)
  {
    hide Feasible, Replaces, NoLarger, Covers, Shares, Held, NonNegative, Misleads;
    forall i | 0 <= i < |list| && Feasible(r, list[i])
      ensures NotBetter(r, list, i)
    {
      ChosenExact(r, list, |list|);
      var c := Pick(r, list, |list|).value;
      NotReplaced(r, list, |list|);
      if c < i {
        HeldFirst(list[c].sizes, list[i].sizes);
      } else if i < c && NoLarger(list[i].sizes, list[c].sizes) {
        NotMisled(r, list, i, c);
      }
    }
  }

  /** In particular when no feasible entry gives a size that a feasible one before it lacks. */
  lemma OrderedNotMisleading(r: Request, list: seq<Entry>)
    requires forall i, j | 0 <= i < j < |list| && Feasible(r, list[i]) && Feasible(r, list[j]) ::
               Covers(list[i].sizes, list[j].sizes)
    ensures !Misleading(r, list)
  {
    hide Feasible;
    forall i, c, k | 0 <= i < k < c < |list| && Misleads(r, list, i, c) && Feasible(r, list[k])
      ensures Covers(list[k].sizes, list[i].sizes)
    {
      assert Covers(list[k].sizes, list[c].sizes);
    }
  }

  lemma NotMisled(r: Request, list: seq<Entry>, i: nat, c: nat)
    requires Sensible(r, list) && i < c < |list| && Feasible(r, list[i]) && Pick(r, list, |list|) == Some(c)
    requires NoLarger(list[i].sizes, list[c].sizes) && !Misleads(r, list, i, c)
    ensures list[i].sizes == list[c].sizes
  {
    hide Feasible, Replaces, NoLarger, Covers, Shares, Held, NonNegative;
    CoversLarger(list[i].sizes, list[c].sizes);
    NotReplaced(r, list, |list|);
    forall e | c < e < |list| && Feasible(r, list[e])
      ensures Shares(list[e].sizes, list[c].sizes)
    {
      SharesIfNot(list[e].sizes, list[c].sizes);
    }
    HeldSince(r, list, i, c + 1);
    HeldEqual(list[c].sizes, list[i].sizes);
  }

  // ----- a misleading pair, then some sizes mislead

  // The same list with other sizes: the same entries are feasible, and give the same sizes.
  predicate SameGiven(r: Request, list: seq<Entry>, other: seq<Entry>) {
    && |other| == |list|
    && forall i | 0 <= i < |list| ::
         && other[i] == list[i].(sizes := other[i].sizes)
         && Feasible(r, other[i]) == Feasible(r, list[i])
         && (Feasible(r, list[i]) ==> Covers(other[i].sizes, list[i].sizes) && Covers(list[i].sizes, other[i].sizes))
  }

  function Greater(x: int, y: int): int { if x > y then x else y }

  // At least everything that is asked for.
  function Base(asked: Sizes): (b: int)
    ensures b >= 1 && b >= asked.cores && b >= asked.speed && b >= asked.memory && b >= asked.storage
  {
    Greater(1, Greater(Greater(asked.cores, asked.speed), Greater(asked.memory, asked.storage)))
  }

  // The sizes that s gives, at these values.
  function Sized(s: Sizes, value: Size -> int): Sizes {
    Sizes(if s.cores != 0 then value(Cores) else 0, if s.speed != 0 then value(Speed) else 0,
          if s.memory != 0 then value(Memory) else 0, if s.storage != 0 then value(Storage) else 0)
  }

  lemma SizedAt(s: Sizes, value: Size -> int)
    ensures forall d :: At(Sized(s, value), d) == if Gives(s, d) then value(d) else 0
  {
  }

  /** Which entries are to stand for what: i is passed over for c, which is larger in size `more` when i gives
      all that c gives, because entry k lacks that size. */
  datatype Roles = Roles(i: nat, c: nat, between: Option<(nat, Size)>)

  function ValueOf(x: Roles, base: int, p: nat): Size -> int {
    (d: Size) =>
      if p == x.i then base
      else if p == x.c then base + (if x.between.Some? && x.between.value.1 == d then 1 else 0)
      else if x.between.Some? && p == x.between.value.0 then base
      else base + 2
  }

  function Revalued(r: Request, list: seq<Entry>, x: Roles): (other: seq<Entry>)
    ensures |other| == |list|
  {
    seq(|list|, p requires 0 <= p < |list| =>
      if Feasible(r, list[p]) then list[p].(sizes := Sized(list[p].sizes, ValueOf(x, Base(r.sizes), p))) else list[p])
  }

  ghost predicate Cast(r: Request, list: seq<Entry>, x: Roles) {
    && Misleads(r, list, x.i, x.c)
    && (x.between.None? ==> !Covers(list[x.i].sizes, list[x.c].sizes))
    && (x.between.Some? ==>
          var (k, d) := x.between.value;
          && x.i < k < x.c && Feasible(r, list[k]) && Gives(list[x.i].sizes, d) && !Gives(list[k].sizes, d))
  }

  lemma StillFeasible(r: Request, e: Entry, value: Size -> int)
    requires Feasible(r, e) && forall d :: value(d) >= Base(r.sizes)
    ensures Feasible(r, e.(sizes := Sized(e.sizes, value)))
  {
    hide BeginsIgnoringCase, Architecture, Base;
  }

  lemma SameCover(s: Sizes, value: Size -> int)
    requires forall d :: value(d) >= 1
    ensures Covers(Sized(s, value), s) && Covers(s, Sized(s, value)) && NonNegative(Sized(s, value))
  {
    SizedAt(s, value);
  }

  lemma RevaluedSame(r: Request, list: seq<Entry>, x: Roles)
    ensures SameGiven(r, list, Revalued(r, list, x)) && Sensible(r, Revalued(r, list, x))
  {
    hide Feasible, Covers, Sized, NonNegative;
    var other := Revalued(r, list, x);
    forall p | 0 <= p < |list| && Feasible(r, list[p])
      ensures Feasible(r, other[p]) && Covers(other[p].sizes, list[p].sizes) && Covers(list[p].sizes, other[p].sizes)
      ensures NonNegative(other[p].sizes)
    {
      StillFeasible(r, list[p], ValueOf(x, Base(r.sizes), p));
      SameCover(list[p].sizes, ValueOf(x, Base(r.sizes), p));
    }
  }

  // The new sizes of a feasible entry, one by one.
  lemma RevaluedAt(r: Request, list: seq<Entry>, x: Roles, p: nat)
    requires p < |list| && Feasible(r, list[p])
    ensures forall d :: At(Revalued(r, list, x)[p].sizes, d) ==
                        if Gives(list[p].sizes, d) then ValueOf(x, Base(r.sizes), p)(d) else 0
    ensures Feasible(r, Revalued(r, list, x)[p])
  {
    hide Feasible, Sized, ValueOf;
    RevaluedSame(r, list, x);
    SizedAt(list[p].sizes, ValueOf(x, Base(r.sizes), p));
  }

  // The entry between takes the place of i, so that i is not the best one when c comes.
  lemma {:induction false} Displaced(r: Request, list: seq<Entry>, x: Roles, n: nat)
    requires Cast(r, list, x) && x.between.Some? && x.between.value.0 < n <= x.c
    ensures Pick(r, Revalued(r, list, x), n) != Some(x.i)
    decreases n
  {
    hide Feasible, Replaces, Revalued, Misleads, Base;
    var k, other := x.between.value.0, Revalued(r, list, x);
    CastFeasible(r, list, x);
    if n == k + 1 {
      RevaluedAt(r, list, x, k);
      if Pick(r, other, k) == Some(x.i) {
        RevaluedAt(r, list, x, x.i);
        BySize(other[k].sizes, other[x.i].sizes);
      }
    } else {
      Displaced(r, list, x, n - 1);
    }
  }

  lemma CastFeasible(r: Request, list: seq<Entry>, x: Roles)
    requires Cast(r, list, x)
    ensures x.i < x.c < |list| && Feasible(r, list[x.i]) && Feasible(r, list[x.c])
    ensures Covers(list[x.c].sizes, list[x.i].sizes)
    ensures forall e | x.c < e < |list| && Feasible(r, list[e]) :: Shares(list[e].sizes, list[x.c].sizes)
  {
    hide Feasible, Covers, Shares;
  }

  // Then c replaces whatever is best.
  lemma Taken(r: Request, list: seq<Entry>, x: Roles)
    requires Cast(r, list, x)
    ensures Pick(r, Revalued(r, list, x), x.c + 1) == Some(x.c)
  {
    hide Feasible, Replaces, Revalued, Misleads, Base, Covers, Shares;
    CastFeasible(r, list, x);
    var other := Revalued(r, list, x);
    var best := Pick(r, other, x.c);
    RevaluedAt(r, list, x, x.c);
    if best.Some? {
      var b := best.value;
      RevaluedSame(r, list, x);
      RevaluedAt(r, list, x, b);
      if x.between.Some? {
        Displaced(r, list, x, x.c);
      }
      BySize(other[x.c].sizes, other[b].sizes);
    }
  }

  // And nothing behind it replaces c.
  lemma {:induction false} Kept(r: Request, list: seq<Entry>, x: Roles, n: nat)
    requires Cast(r, list, x) && x.c < n <= |list|
    ensures Pick(r, Revalued(r, list, x), n) == Some(x.c)
    decreases n
  {
    hide Feasible, Replaces, Revalued, Misleads, Base, Covers;
    CastFeasible(r, list, x);
    var other := Revalued(r, list, x);
    if n == x.c + 1 {
      Taken(r, list, x);
    } else {
      Kept(r, list, x, n - 1);
      RevaluedSame(r, list, x);
      if Feasible(r, list[n - 1]) {
        RevaluedAt(r, list, x, n - 1);
        RevaluedAt(r, list, x, x.c);
        BySize(other[n - 1].sizes, other[x.c].sizes);
        var d :| Gives(list[n - 1].sizes, d) && Gives(list[x.c].sizes, d);
        assert At(other[n - 1].sizes, d) > At(other[x.c].sizes, d) > 0;
      }
    }
  }

  lemma CastMisleads(r: Request, list: seq<Entry>, x: Roles)
    requires Cast(r, list, x)
    ensures !Minimal(r, Revalued(r, list, x))
  {
    hide Feasible, Replaces, NoLarger, Revalued, Misleads, Base;
    CastFeasible(r, list, x);
    var other := Revalued(r, list, x);
    Kept(r, list, x, |list|);
    RevaluedAt(r, list, x, x.i);
    RevaluedAt(r, list, x, x.c);
    BySize(other[x.i].sizes, other[x.c].sizes);
    if x.between.None? {
      var d :| Gives(list[x.c].sizes, d) && !Gives(list[x.i].sizes, d);
      assert At(other[x.i].sizes, d) != At(other[x.c].sizes, d);
    } else {
      var d := x.between.value.1;
      assert At(other[x.i].sizes, d) != At(other[x.c].sizes, d);
    }
    assert !NotBetter(r, other, x.i);
  }

  /** Which sizes are given decides: whatever their values, the choice is minimal exactly when no pair of
      entries misleads. */
  lemma MinimalExact(r: Request, list: seq<Entry>)
    ensures (forall other | SameGiven(r, list, other) && Sensible(r, other) :: Minimal(r, other)) <==>
            !Misleading(r, list)
  {
    hide Minimal, Sensible, SameGiven, Misleads, Feasible;
    if Misleading(r, list) {
      var i, c :| 0 <= i < c < |list| && Misleads(r, list, i, c);
      var x := Casting(r, list, i, c);
      RevaluedSame(r, list, x);
      CastMisleads(r, list, x);
    } else {
      forall other | SameGiven(r, list, other) && Sensible(r, other)
        ensures Minimal(r, other)
      {
        if Misleading(r, other) {
          SameMisleading(r, list, other);
        }
        ChoiceMinimal(r, other);
      }
    }
  }

  lemma Casting(r: Request, list: seq<Entry>, i: nat, c: nat) returns (x: Roles)
    requires Misleads(r, list, i, c)
    ensures Cast(r, list, x)
  {
    hide Feasible, Shares;
    x := Roles(i, c, None);
    if Covers(list[i].sizes, list[c].sizes) {
      var k :| i < k < c && Feasible(r, list[k]) && !Covers(list[k].sizes, list[i].sizes);
      var d :| Gives(list[i].sizes, d) && !Gives(list[k].sizes, d);
      x := Roles(i, c, Some((k, d)));
    }
  }

  // Misleading is a matter of which sizes are given.
  lemma SameMisleading(r: Request, list: seq<Entry>, other: seq<Entry>)
    requires SameGiven(r, list, other) && Misleading(r, other)
    ensures Misleading(r, list)
  {
    hide Feasible;
    var i, c :| 0 <= i < c < |other| && Misleads(r, other, i, c);
    assert Misleads(r, list, i, c);
  }

  /** An example: the second entry gives no number of cores, so the third one, larger than the first, is
      taken. */
  lemma UnknownSizeMisleads()
    ensures var one := Entry(Some("a"), Sizes(1, 1, 1, 1), "p", "r", EITHER);
            var two, three := one.(sizes := Sizes(0, 1, 1, 1)), one.(sizes := Sizes(2, 1, 1, 1));
            var list := [one, two, three];
            var r := Request(Sizes(1, 1, 1, 1), "p", "r", None);
            Pick(r, list, 3) == Some(2) && Feasible(r, list[0])
            && NoLarger(list[0].sizes, list[2].sizes) && list[0].sizes != list[2].sizes
  {
    var one := Entry(Some("a"), Sizes(1, 1, 1, 1), "p", "r", EITHER);
    var list := [one, one.(sizes := Sizes(0, 1, 1, 1)), one.(sizes := Sizes(2, 1, 1, 1))];
    var r := Request(Sizes(1, 1, 1, 1), "p", "r", None);
    assert Pick(r, list, 1) == Some(0);
    assert Pick(r, list, 2) == Some(1);
  }
}
