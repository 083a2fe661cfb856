/**
 * The random-group partitioner of the bot: `_generate_groups` cuts a list into
 * consecutive chunks, and `_assign_random_groups` shuffles the participants and
 * splits them into groups according to the target group size and the remainder
 * of the participant count modulo that size.
 *
 * The specification functions work on the already shuffled sequence; the
 * methods of `RandomGroups` follow the source step by step, changing the
 * caller's participant list in place as the source does.
 */
module GroupPartition {

  type UserId = string

  /** What a call of `_assign_random_groups` ends in: the list of groups it
      returns, the `None` it falls through to, or the exception it raises. */
  datatype Outcome<T> =
    | Groups(groups: seq<seq<T>>)
    | ReturnedNone
    | ZeroDivisionError
    | IndexError

  function Min(a: int, b: int): int
  {
    if a <= b then a else b
  }

  /** The groups laid end to end, in order. */
  function Flatten<T>(gs: seq<seq<T>>): seq<T>
  {
    if gs == [] then [] else gs[0] + Flatten(gs[1..])
  }

  /** Every participant occurs in the groups exactly as often as in `s`. */
  ghost predicate IsPartitionOf<T>(gs: seq<seq<T>>, s: seq<T>)
  {
    multiset(Flatten(gs)) == multiset(s)
  }

  ghost predicate SizesWithin<T>(gs: seq<seq<T>>, lo: int, hi: int)
  {
    forall k :: 0 <= k < |gs| ==> lo <= |gs[k]| <= hi
  }

  ghost predicate Distinct<T>(s: seq<T>)
  {
    forall i, j :: 0 <= i < j < |s| ==> s[i] != s[j]
  }

  // ---------------------------------------------------------------------
  // _generate_groups
  // ---------------------------------------------------------------------

  /** The slices `lst[i:i+n]` for `i` in `range(0, len(lst), n)`; a slice that
      runs past the end is cut short, as Python's slicing does. */
  function Chunks<T>(lst: seq<T>, n: int): seq<seq<T>>
    requires n >= 1
    decreases |lst|
  {
    if lst == [] then []
    else
      var k := Min(n, |lst|);
      [lst[..k]] + Chunks(lst[k..], n)
  }

  lemma {:induction false} FlattenAppend<T>(a: seq<seq<T>>, b: seq<seq<T>>)
    ensures Flatten(a + b) == Flatten(a) + Flatten(b)
  {
    if a == [] {
      assert a + b == b;
    } else {
      assert (a + b)[1..] == a[1..] + b;
      FlattenAppend(a[1..], b);
    }
  }

  lemma FlattenCons<T>(x: seq<T>, rest: seq<seq<T>>)
    ensures Flatten([x] + rest) == x + Flatten(rest)
  {
  }

  /** The chunks concatenated give back the list exactly. */
  lemma {:induction false} ChunksFlatten<T>(lst: seq<T>, n: int)
    requires n >= 1
    ensures Flatten(Chunks(lst, n)) == lst
  {
    if lst != [] {
      var k := Min(n, |lst|);
      ChunksFlatten(lst[k..], n);
      FlattenCons(lst[..k], Chunks(lst[k..], n));
      assert lst[..k] + lst[k..] == lst;
    }
  }

  lemma MulSign(d: int, n: int)
    requires n >= 1
    ensures d >= 1 ==> d * n >= n
    ensures d <= -1 ==> d * n <= -n
  {
  }

  lemma DivModUnique(a: int, n: int, q: int, r: int)
    requires n >= 1 && 0 <= r < n && a == q * n + r
    ensures a / n == q && a % n == r
  {
    var q', r' := a / n, a % n;
    assert a == q' * n + r' && 0 <= r' < n;
    assert (q - q') * n == r' - r;
    MulSign(q - q', n);
  }

  lemma ModAtMost(a: int, n: int)
    requires a >= 0 && n >= 1
    ensures 0 <= a % n <= a && a % n < n
  {
  }

  lemma DivModStep(a: int, n: int)
    requires a >= 0 && n >= 1
    ensures (a + n) / n == a / n + 1 && (a + n) % n == a % n
  {
    var q, r := a / n, a % n;
    assert a == q * n + r;
    assert a + n == (q + 1) * n + r;
    DivModUnique(a + n, n, q + 1, r);
  }

  /** Every chunk is non-empty and holds at most `n` elements, every chunk but
      the last holds exactly `n`, and there are `ceil(len(lst) / n)` of them. */
  lemma {:induction false} ChunksShape<T>(lst: seq<T>, n: int)
    requires n >= 1
    ensures SizesWithin(Chunks(lst, n), 1, n)
    ensures forall k :: 0 <= k < |Chunks(lst, n)| - 1 ==> |Chunks(lst, n)[k]| == n
    ensures |Chunks(lst, n)| == (|lst| + n - 1) / n
  {
    if lst == [] {
      DivModUnique(n - 1, n, 0, n - 1);
    } else {
      var k := Min(n, |lst|);
      var rest := Chunks(lst[k..], n);
      ChunksShape(lst[k..], n);
      assert Chunks(lst, n) == [lst[..k]] + rest;
      if |lst| <= n {
        assert rest == [];
        DivModUnique(|lst| + n - 1, n, 1, |lst| - 1);
      } else {
        DivModStep(|lst| - 1, n);
        assert |lst[k..]| + n - 1 == |lst| - 1;
      }
    }
  }

  /** When `n` divides the length, every chunk holds exactly `n` elements. */
  lemma {:induction false} ChunksOfMultiple<T>(lst: seq<T>, n: int)
    requires n >= 1 && |lst| % n == 0
    ensures SizesWithin(Chunks(lst, n), n, n)
  {
    if lst != [] {
      var k := Min(n, |lst|);
      if |lst| < n {
        DivModUnique(|lst|, n, 0, |lst|);
      } else {
        DivModStep(|lst| - n, n);
        ChunksOfMultiple(lst[k..], n);
      }
    }
  }

  // ---------------------------------------------------------------------
  // _assign_random_groups
  // ---------------------------------------------------------------------

  /** The outcome of `_assign_random_groups` once `random.shuffle` has reordered
      the participants into `s`, for group size `g`, following the code as
      written (including the second slice `temp[:len(temp)//2:]`). */
  function AssignedGroups<T>(s: seq<T>, g: int): Outcome<T>
  {
    if g == 0 then ZeroDivisionError
    else if g == 2 then
      if |s| % 2 == 1 then
        var rest := Chunks(s[1..], 2);
        if rest == [] then IndexError
        else Groups(rest[0 := [s[0]] + rest[0]])
      else Groups(Chunks(s, 2))
    else if g > 2 then
      var m := |s| % g;
      if m > 1 then
        Groups(Chunks(s[m..], g) + [s[..m]])
      else if m == 1 then
        var t := Min(g + 1, |s|);
        var temp := s[..t];
        Groups(Chunks(s[t..], g) + [temp[..|temp| / 2], temp[..|temp| / 2]])
      else
        Groups(Chunks(s, g))
    else ReturnedNone
  }

  /** The same partitioner with the remainder-one split the code's comment
      describes: the `g + 1` trailing participants are cut into the halves
      `temp[:len(temp)//2]` and `temp[len(temp)//2:]`. */
  function IntendedGroups<T>(s: seq<T>, g: int): Outcome<T>
  {
    if g > 2 && |s| % g == 1 then
      var t := Min(g + 1, |s|);
      var temp := s[..t];
      Groups(Chunks(s[t..], g) + [temp[..|temp| / 2], temp[|temp| / 2..]])
    else AssignedGroups(s, g)
  }

  /** Group size 2, even count: pairs, in shuffled order. */
  lemma PairsForEvenCount<T>(s: seq<T>)
    requires |s| % 2 == 0
    ensures AssignedGroups(s, 2).Groups?
    ensures SizesWithin(AssignedGroups(s, 2).groups, 2, 2)
    ensures Flatten(AssignedGroups(s, 2).groups) == s
  {
    ChunksOfMultiple(s, 2);
    ChunksFlatten(s, 2);
  }

  /** Group size 2, odd count of at least 3: the popped head joins the front
      of the first pair, every other group is a pair, and the groups laid end
      to end give back the shuffled list. */
  lemma PairsForOddCount<T>(s: seq<T>)
    requires |s| % 2 == 1 && |s| >= 3
    ensures AssignedGroups(s, 2).Groups?
    ensures var gs := AssignedGroups(s, 2).groups;
      |gs| >= 1 && |gs[0]| == 3 && gs[0][0] == s[0] &&
      (forall k :: 1 <= k < |gs| ==> |gs[k]| == 2) &&
      Flatten(gs) == s
  {
    var rest := Chunks(s[1..], 2);
    ChunksOfMultiple(s[1..], 2);
    ChunksFlatten(s[1..], 2);
    assert rest != [];
    var gs := rest[0 := [s[0]] + rest[0]];
    assert AssignedGroups(s, 2) == Groups(gs);
    assert gs == [[s[0]] + rest[0]] + rest[1..];
    assert rest == [rest[0]] + rest[1..];
    FlattenCons([s[0]] + rest[0], rest[1..]);
    FlattenCons(rest[0], rest[1..]);
    assert s == [s[0]] + s[1..];
  }

  /** Group size 2 and a single participant: `lst_groups[0]` fails. */
  lemma SingleParticipantPairsFail<T>(s: seq<T>)
    requires |s| == 1
    ensures AssignedGroups(s, 2) == IndexError
  {
  }

  /** Group size above 2 dividing the count: full groups only, in shuffled
      order; no participants gives no groups. */
  lemma FullGroupsForMultiple<T>(s: seq<T>, g: int)
    requires g > 2 && |s| % g == 0
    ensures AssignedGroups(s, g).Groups?
    ensures SizesWithin(AssignedGroups(s, g).groups, g, g)
    ensures Flatten(AssignedGroups(s, g).groups) == s
    ensures s == [] ==> AssignedGroups(s, g).groups == []
  {
    ChunksOfMultiple(s, g);
    ChunksFlatten(s, g);
  }

  lemma RemainderIsMultiple(a: int, n: int, m: int)
    requires a >= 0 && n >= 1 && m == a % n
    ensures (a - m) % n == 0
  {
    DivModUnique(a - m, n, a / n, 0);
  }

  /** Group size above 2, remainder at least 2: full groups of the
      participants after the first `mod`, then the first `mod` as one short
      group; every group but the last has exactly `g` members and the last
      has `mod`, so all sizes lie in [2, g]; nobody is lost or repeated, and
      fewer than `g` participants (at least 2) form a single group. */
  lemma ShortGroupForLargeRemainder<T>(s: seq<T>, g: int)
    requires g > 2 && |s| % g > 1
    ensures var m := |s| % g;
      AssignedGroups(s, g) == Groups(Chunks(s[m..], g) + [s[..m]])
    ensures var gs := AssignedGroups(s, g).groups;
      |gs| >= 1 && (forall k :: 0 <= k < |gs| - 1 ==> |gs[k]| == g) &&
      |gs[|gs| - 1]| == |s| % g
    ensures SizesWithin(AssignedGroups(s, g).groups, 2, g)
    ensures IsPartitionOf(AssignedGroups(s, g).groups, s)
    ensures |s| < g ==> AssignedGroups(s, g).groups == [s]
  {
    var m := |s| % g;
    var full := Chunks(s[m..], g);
    RemainderIsMultiple(|s|, g, m);
    ChunksOfMultiple(s[m..], g);
    ChunksFlatten(s[m..], g);
    FlattenAppend(full, [s[..m]]);
    FlattenCons(s[..m], []);
    assert s == s[..m] + s[m..];
    if |s| < g {
      DivModUnique(|s|, g, 0, |s|);
      assert s[m..] == [];
      assert s[..m] == s;
    }
  }

  /** Group size above 2, remainder 1, at least `g + 1` participants: full
      groups of `g` made of the participants after the first `g + 1`, then
      two copies of the first `(g + 1) / 2`; every size lies in [2, g]. */
  lemma UnitRemainderShape<T>(s: seq<T>, g: int)
    requires g > 2 && |s| % g == 1 && |s| >= g + 1
    ensures var h := (g + 1) / 2;
      AssignedGroups(s, g) == Groups(Chunks(s[g + 1..], g) + [s[..h], s[..h]])
    ensures var gs := AssignedGroups(s, g).groups;
      SizesWithin(gs, 2, g) &&
      |gs| >= 2 && (forall k :: 0 <= k < |gs| - 2 ==> |gs[k]| == g) &&
      |gs[|gs| - 2]| == |gs[|gs| - 1]| == (g + 1) / 2
  {
    var h := (g + 1) / 2;
    var temp := s[..g + 1];
    assert temp[..|temp| / 2] == s[..h];
    DivModUnique(|s| - g - 1, g, |s| / g - 1, 0);
    ChunksOfMultiple(s[g + 1..], g);
  }

  /** With distinct participants, `s[lo..] + s[..h] + s[..h]` misses every
      element between `h` and `lo` and holds the first element twice. */
  lemma DroppedAndRepeated<T>(s: seq<T>, lo: int, h: int)
    requires Distinct(s) && 1 <= h <= lo <= |s|
    ensures forall j :: h <= j < lo ==> s[j] !in s[lo..] + s[..h] + s[..h]
    ensures multiset(s[lo..] + s[..h] + s[..h])[s[0]] >= 2
  {
  }

  /** The remainder-one branch as written: the two trailing groups are the
      same first `(g + 1) / 2` participants. With distinct participants,
      those between index `(g + 1) / 2` and `g` are in no group, and the
      first one is in two. */
  lemma DuplicatedHalfForUnitRemainder<T>(s: seq<T>, g: int)
    requires g > 2 && |s| % g == 1 && |s| >= g + 1
    ensures AssignedGroups(s, g).Groups?
    ensures var gs := AssignedGroups(s, g).groups;
      |gs| >= 2 && gs[|gs| - 2] == gs[|gs| - 1] == s[..(g + 1) / 2]
    ensures Distinct(s) ==>
      forall j :: (g + 1) / 2 <= j < g + 1 ==> s[j] !in Flatten(AssignedGroups(s, g).groups)
    ensures Distinct(s) ==> multiset(Flatten(AssignedGroups(s, g).groups))[s[0]] >= 2
  {
    var h := (g + 1) / 2;
    var full := Chunks(s[g + 1..], g);
    var gs := full + [s[..h], s[..h]];
    UnitRemainderShape(s, g);
    ChunksFlatten(s[g + 1..], g);
    FlattenAppend(full, [s[..h], s[..h]]);
    FlattenCons(s[..h], [s[..h]]);
    FlattenCons(s[..h], []);
    assert Flatten(gs) == s[g + 1..] + s[..h] + s[..h];
    if Distinct(s) {
      DroppedAndRepeated(s, g + 1, h);
    }
  }

  /** A count with remainder 1 is either 1 or at least `n + 1`. */
  lemma UnitRemainderCount(a: int, n: int)
    requires a >= 0 && n >= 2 && a % n == 1
    ensures a == 1 || a >= n + 1
  {
  }

  /** Group size above 2 and a single participant: two empty groups, and the
      participant is in neither. */
  lemma EmptyGroupsForSingleParticipant<T>(s: seq<T>, g: int)
    requires g > 2 && |s| == 1
    ensures AssignedGroups(s, g) == Groups([[], []])
  {
  }

  /** A group size of 0 fails on `% 0`; 1 or a negative size reaches neither
      branch, so `None` comes back. */
  lemma InvalidGroupSize<T>(s: seq<T>, g: int)
    requires g < 2
    ensures AssignedGroups(s, g) == (if g == 0 then ZeroDivisionError else ReturnedNone)
  {
  }

  /** The participant counts and group sizes for which the code as written
      places every participant in exactly one group. */
  ghost predicate PartitionHolds(n: nat, g: int)
  {
    g >= 2 && n != 1 && !(g > 2 && n % g == 1)
  }

  /** Wherever `PartitionHolds`, the result is a list of groups that together
      hold every participant exactly once, each of size 2 to `g` (2 to 3 for
      pairs). */
  lemma PartitionWhereItHolds<T>(s: seq<T>, g: int)
    requires PartitionHolds(|s|, g)
    ensures AssignedGroups(s, g).Groups?
    ensures IsPartitionOf(AssignedGroups(s, g).groups, s)
    ensures SizesWithin(AssignedGroups(s, g).groups, 2, if g == 2 then 3 else g)
  {
    if g == 2 {
      if |s| % 2 == 1 {
        PairsForOddCount(s);
      } else {
        PairsForEvenCount(s);
      }
    } else if |s| % g > 1 {
      ShortGroupForLargeRemainder(s, g);
    } else {
      FullGroupsForMultiple(s, g);
    }
  }

  /** For at least two distinct participants and a valid group size, the
      result is a partition exactly when the remainder-one branch is not
      taken. */
  lemma PartitionIff<T>(s: seq<T>, g: int)
    requires g >= 2 && |s| >= 2 && Distinct(s)
    ensures (AssignedGroups(s, g).Groups? && IsPartitionOf(AssignedGroups(s, g).groups, s))
        <==> !(g > 2 && |s| % g == 1)
  {
    if g > 2 && |s| % g == 1 {
      UnitRemainderCount(|s|, g);
      DuplicatedHalfForUnitRemainder(s, g);
      assert s == [s[0]] + s[1..];
      assert forall i :: 0 <= i < |s[1..]| ==> s[1..][i] == s[1 + i] != s[0];
      assert multiset(s)[s[0]] == 1;
    } else {
      PartitionWhereItHolds(s, g);
    }
  }

  lemma FlattenTwoTail<T>(full: seq<seq<T>>, x: seq<T>, y: seq<T>)
    ensures Flatten(full + [x, y]) == Flatten(full) + x + y
  {
    FlattenAppend(full, [x, y]);
    FlattenCons(x, [y]);
    FlattenCons(y, []);
  }

  /** The corrected remainder-one branch keeps every participant exactly
      once. */
  lemma IntendedUnitRemainderPartition<T>(s: seq<T>, g: int)
    requires g > 2 && |s| % g == 1
    ensures IntendedGroups(s, g).Groups?
    ensures IsPartitionOf(IntendedGroups(s, g).groups, s)
  {
    var t := Min(g + 1, |s|);
    var temp := s[..t];
    var h := |temp| / 2;
    var full := Chunks(s[t..], g);
    assert IntendedGroups(s, g) == Groups(full + [temp[..h], temp[h..]]);
    ChunksFlatten(s[t..], g);
    FlattenTwoTail(full, temp[..h], temp[h..]);
    assert temp[..h] + temp[h..] == temp;
    assert s == temp + s[t..];
    assert multiset(s) == multiset(temp[..h] + temp[h..] + s[t..]);
  }

  /** For at least 2 participants the corrected remainder-one branch gives
      full groups of `g` followed by groups of `(g + 1) / 2` and
      `g + 1 - (g + 1) / 2` members. */
  lemma IntendedUnitRemainderSizes<T>(s: seq<T>, g: int)
    requires g > 2 && |s| % g == 1 && |s| >= 2
    ensures IntendedGroups(s, g).Groups?
    ensures var gs := IntendedGroups(s, g).groups;
      SizesWithin(gs, 2, g) &&
      |gs| >= 2 && (forall k :: 0 <= k < |gs| - 2 ==> |gs[k]| == g) &&
      |gs[|gs| - 2]| == (g + 1) / 2 && |gs[|gs| - 1]| == g + 1 - (g + 1) / 2
  {
    UnitRemainderCount(|s|, g);
    var temp := s[..g + 1];
    var h := (g + 1) / 2;
    var full := Chunks(s[g + 1..], g);
    assert IntendedGroups(s, g) == Groups(full + [temp[..h], temp[h..]]);
    DivModUnique(|s| - g - 1, g, |s| / g - 1, 0);
    ChunksOfMultiple(s[g + 1..], g);
  }

  /** The corrected partitioner keeps every participant exactly once for every
      valid group size, and for at least 2 participants every group has 2 to
      `g` members (2 to 3 for pairs). */
  lemma IntendedIsPartition<T>(s: seq<T>, g: int)
    requires g >= 2 && !(g == 2 && |s| == 1)
    ensures IntendedGroups(s, g).Groups?
    ensures IsPartitionOf(IntendedGroups(s, g).groups, s)
    ensures |s| >= 2 ==> SizesWithin(IntendedGroups(s, g).groups, 2, if g == 2 then 3 else g)
  {
    if g > 2 && |s| % g == 1 {
      IntendedUnitRemainderPartition(s, g);
      if |s| >= 2 {
        IntendedUnitRemainderSizes(s, g);
      }
    } else {
      PartitionWhereItHolds(s, g);
    }
  }

  /** Five participants and groups of four, shuffled into `[a, b, c, d, e]`: the
      code gives `[a, b]` twice, the corrected split gives `[a, b]` and
      `[c, d, e]`. */
  lemma DuplicatedHalfExample()
    ensures AssignedGroups(["a", "b", "c", "d", "e"], 4) == Groups([["a", "b"], ["a", "b"]])
    ensures IntendedGroups(["a", "b", "c", "d", "e"], 4) == Groups([["a", "b"], ["c", "d", "e"]])
  {
    var s := ["a", "b", "c", "d", "e"];
    assert s[..5] == s;
    assert s[5..] == [];
    assert s[..5][..2] == ["a", "b"];
    assert s[..5][2..] == ["c", "d", "e"];
  }

  // ---------------------------------------------------------------------
  // The mutable participant list and the RandomGroups object
  // ---------------------------------------------------------------------

  /** The caller's list of participant ids, which `_assign_random_groups`
      shuffles and, for odd pairs, pops from. */
  class ParticipantList {
    var ids: seq<UserId>

    constructor (ids: seq<UserId>)
      ensures this.ids == ids
    {
      this.ids := ids;
    }
  }

  class RandomGroups {
    const groupSize: int

    constructor (groupSize: int)
      ensures this.groupSize == groupSize
    {
      this.groupSize := groupSize;
    }

    /** `_generate_groups`: the loop over `range(0, len(lst), n)`. */
    method GenerateGroups(lst: seq<UserId>, n: int) returns (groups: seq<seq<UserId>>)
      requires n >= 1
      ensures groups == Chunks(lst, n)
    {
      groups := [];
      var i := 0;
      while i < |lst|
        invariant 0 <= i <= |lst|
        invariant groups + Chunks(lst[i..], n) == Chunks(lst, n)
      {
        var hi := Min(i + n, |lst|);
        assert lst[i..][..Min(n, |lst| - i)] == lst[i..hi];
        assert lst[i..][Min(n, |lst| - i)..] == lst[hi..];
        groups := groups + [lst[i..hi]];
        i := hi;
      }
      assert lst[i..] == [];
    }

    /** `_assign_random_groups`, with `shuffled` the order `random.shuffle`
        leaves the list in. The list object ends shuffled, and without its head
        when an odd number of participants is paired. */
    method AssignRandomGroups(users: ParticipantList, shuffled: seq<UserId>) returns (r: Outcome<UserId>)
      requires multiset(shuffled) == multiset(users.ids)
      modifies users
      ensures r == AssignedGroups(shuffled, groupSize)
      ensures users.ids ==
        if groupSize == 0 then old(users.ids)
        else if groupSize == 2 && |shuffled| % 2 == 1 then shuffled[1..]
        else shuffled
      ensures PartitionHolds(|old(users.ids)|, groupSize) ==>
        r.Groups? && multiset(Flatten(r.groups)) == multiset(old(users.ids))
    {
      assert |shuffled| == |multiset(shuffled)| == |users.ids|;
      var numUsers := |users.ids|;
      if groupSize == 0 {
        r := ZeroDivisionError;
        return;
      }
      users.ids := shuffled;
      if PartitionHolds(numUsers, groupSize) {
        PartitionWhereItHolds(shuffled, groupSize);
      }
      if groupSize == 2 {
        var m := numUsers % 2;
        if m == 1 {
          var single := users.ids[0];
          users.ids := users.ids[1..];
          var groups := GenerateGroups(users.ids, 2);
          if |groups| == 0 {
            r := IndexError;
            return;
          }
          groups := groups[0 := [single] + groups[0]];
          r := Groups(groups);
          return;
        } else {
          var groups := GenerateGroups(users.ids, 2);
          r := Groups(groups);
          return;
        }
      }
      if groupSize > 2 {
        var m := numUsers % groupSize;
        ModAtMost(numUsers, groupSize);
        if m > 1 {
          var smallerGroup := users.ids[0..m];
          var groups := GenerateGroups(users.ids[m..], groupSize);
          groups := groups + [smallerGroup];
          r := Groups(groups);
          return;
        }
        if m == 1 {
          var t := Min(groupSize + 1, |users.ids|);
          var temp := users.ids[0..t];
          var groups := GenerateGroups(users.ids[t..], groupSize);
          groups := groups + [temp[..|temp| / 2], temp[..|temp| / 2]];
          r := Groups(groups);
          return;
        }
        var groups := GenerateGroups(users.ids, groupSize);
        r := Groups(groups);
        return;
      }
      r := ReturnedNone;
    }
  }
}
