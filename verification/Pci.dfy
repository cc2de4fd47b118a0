/** pci_find_capability of src/pci.c: a walk of at most 48 hops along a list of
    capabilities that may be cyclic. */
module Pci {
  import opened Words

  const BUDGET: nat := 48
  const STATUS_HIGH: nat := 6      // the low byte of the status register
  const CAP_PTR: nat := 0x34
  const FIRST: nat := 0x40         // capabilities lie behind the header

  /** The 256 bytes of a function's configuration space. */
  type Config = s: seq<u8> | |s| == 256 witness seq(256, _ => 0)

  /** A pointer with its two reserved bits masked out. */
  function Link(x: u8): (r: nat)
    ensures r % 4 == 0 && r <= 0xFC
  {
    x / 4 * 4
  }

  /** Where the capability at o says the next one is. */
  function LinkAt(cfg: Config, o: nat): (r: nat)
    requires o <= 0xFC
    ensures r % 4 == 0 && r <= 0xFC
  {
    Link(cfg[o + 1])
  }

  /** The offset reached after k hops; 0 once the list has ended. */
  function Hop(cfg: Config, k: nat): (r: nat)
    ensures r % 4 == 0 && r <= 0xFC
  {
    if k == 0 then Link(cfg[CAP_PTR])
    else if Hop(cfg, k - 1) == 0 then 0
    else LinkAt(cfg, Hop(cfg, k - 1))
  }

  /** The capability k hops away has that id. */
  predicate FoundAt(cfg: Config, id: u8, k: nat) {
    Hop(cfg, k) != 0 && cfg[Hop(cfg, k)] == id
  }

  /** Bit 4 of the status register: there is a list. */
  predicate HasList(cfg: Config) { cfg[STATUS_HIGH] / 16 % 2 == 1 }

  /** The walk as section 6.7 of the PCI Local Bus Specification 3.0 has it: from
      the byte at 0x34 along the second byte of each capability, the two low bits
      of a pointer reserved. */
  lemma HopLaws(cfg: Config, k: nat)
    ensures Hop(cfg, 0) == cfg[0x34] - cfg[0x34] % 4
    ensures Hop(cfg, k + 1) == if Hop(cfg, k) == 0 then 0 else cfg[Hop(cfg, k) + 1] - cfg[Hop(cfg, k) + 1] % 4
    ensures HasList(cfg) <==> cfg[0x06] / 16 % 2 == 1
  {}

  /** From a hop that leads nowhere else on, nothing new is reached. */
  lemma {:induction false} Periodic(cfg: Config, i: nat, j: nat, k: nat)
    requires Hop(cfg, i) == Hop(cfg, j)
    ensures Hop(cfg, i + k) == Hop(cfg, j + k)
  {
    if k > 0 { Periodic(cfg, i, j, k - 1); }
  }

  lemma Stuck(cfg: Config, id: u8, k: nat)
    requires Hop(cfg, k) == 0 || Hop(cfg, k + 1) == Hop(cfg, k)
    requires !FoundAt(cfg, id, k)
    ensures forall m :: k <= m ==> !FoundAt(cfg, id, m)
  {
    forall m | k <= m ensures !FoundAt(cfg, id, m) { StuckAt(cfg, k, m); }
  }

  lemma {:induction false} StuckAt(cfg: Config, k: nat, m: nat)
    requires (Hop(cfg, k) == 0 || Hop(cfg, k + 1) == Hop(cfg, k)) && k <= m
    ensures Hop(cfg, m) == Hop(cfg, k)
  {
    if k < m {
      StuckAt(cfg, k, m - 1);
      if Hop(cfg, k) != 0 { Periodic(cfg, k, m - 1, 1); }
    }
  }

  // ---- When the budget loses nothing ----

  /** The walk has ended, or is going round, by the time the budget is used up:
      the place it would look at next is none, or one it has looked at. */
  ghost predicate Closed(cfg: Config) {
    Hop(cfg, BUDGET) == 0 || exists m: nat :: m < BUDGET && Hop(cfg, m) == Hop(cfg, BUDGET)
  }

  lemma {:induction false} EndedStays(cfg: Config, k: nat, m: nat)
    requires Hop(cfg, k) == 0 && k <= m
    ensures Hop(cfg, m) == 0
  {
    StuckAt(cfg, k, m);
  }

  /** Whatever a walk of any length would find, 48 hops find. */
  lemma {:induction false} BudgetSuffices(cfg: Config, id: u8, k: nat) returns (m: nat)
    requires Closed(cfg) && FoundAt(cfg, id, k)
    ensures m <= k && m < BUDGET && FoundAt(cfg, id, m)
  {
    if k < BUDGET {
      m := k;
    } else {
      if Hop(cfg, BUDGET) == 0 { EndedStays(cfg, BUDGET, k); }
      var i: nat :| i < BUDGET && Hop(cfg, i) == Hop(cfg, BUDGET);
      Periodic(cfg, i, BUDGET, k - BUDGET);
      m := BudgetSuffices(cfg, id, k - (BUDGET - i));
    }
  }

  lemma WholeList(cfg: Config, id: u8)
    requires Closed(cfg) && forall k :: 0 <= k < BUDGET ==> !FoundAt(cfg, id, k)
    ensures forall k: nat :: !FoundAt(cfg, id, k)
  {
    forall k: nat ensures !FoundAt(cfg, id, k) {
      if FoundAt(cfg, id, k) { var m := BudgetSuffices(cfg, id, k); }
    }
  }

  /** Every id found at any hop is found within the budget. */
  ghost predicate NothingLost(cfg: Config) {
    forall id: u8, k: nat :: FoundAt(cfg, id, k) ==> exists m: nat :: m < BUDGET && FoundAt(cfg, id, m)
  }

  /** The same list, whatever the capabilities on it are. */
  ghost predicate SameLinks(c: Config, d: Config) {
    && Link(c[CAP_PTR]) == Link(d[CAP_PTR])
    && forall o :: 0 <= o <= 0xFC && o % 4 == 0 ==> LinkAt(c, o) == LinkAt(d, o)
  }

  lemma {:induction false} SameHops(c: Config, d: Config, k: nat)
    requires SameLinks(c, d)
    ensures Hop(c, k) == Hop(d, k)
  {
    hide Link, LinkAt;
    if k > 0 { SameHops(c, d, k - 1); }
  }

  /** The list of c with a capability at o of an id that no other has. */
  function Relabelled(c: Config, o: nat): Config { seq(256, i requires 0 <= i < 256 => RelabelledByte(c, o, i)) }

  function NewId(c: Config, o: nat): u8 {
    var was: int := c[CAP_PTR];
    if o == CAP_PTR then was else (was + 1) % 0x100
  }

  function RelabelledByte(c: Config, o: nat, i: nat): u8
    requires i < 256
  {
    var x: int := NewId(c, o);
    if i % 4 != 0 || i == CAP_PTR then c[i] else if i == o then x else (x + 1) % 0x100
  }

  lemma RelabelledAt(c: Config, o: nat, i: nat)
    requires i < 256
    ensures Relabelled(c, o)[i] == RelabelledByte(c, o, i)
  {}

  lemma RelabelledIs(c: Config, o: nat)
    requires o % 4 == 0 && o <= 0xFC
    ensures var d, x := Relabelled(c, o), NewId(c, o);
      SameLinks(c, d) && d[o] == x && forall i :: 0 <= i <= 0xFC && i % 4 == 0 && i != o ==> d[i] != x
  {
    hide Relabelled, Link;
    var d, x := Relabelled(c, o), NewId(c, o);
    RelabelledAt(c, o, o);
    RelabelledAt(c, o, CAP_PTR);
    forall i | 0 <= i <= 0xFC && i % 4 == 0 ensures LinkAt(c, i) == LinkAt(d, i) && (i != o ==> d[i] != x) {
      RelabelledAt(c, o, i);
      RelabelledAt(c, o, i + 1);
    }
  }

  /** The budget of 48 hops loses no capability on a list, whatever the ids on
      it, if and only if the walk has ended or gone round by then. */
  lemma BudgetSufficesIff(c: Config)
    ensures (forall d: Config :: SameLinks(c, d) ==> NothingLost(d)) <==> Closed(c)
  {
    if Closed(c) {
      forall d: Config | SameLinks(c, d) ensures NothingLost(d) { ClosedLosesNothing(c, d); }
    } else {
      NotClosedLoses(c);
    }
  }

  lemma ClosedLosesNothing(c: Config, d: Config)
    requires Closed(c) && SameLinks(c, d)
    ensures NothingLost(d)
  {
    SameHops(c, d, BUDGET);
    if Hop(c, BUDGET) != 0 {
      var m: nat :| m < BUDGET && Hop(c, m) == Hop(c, BUDGET);
      SameHops(c, d, m);
    }
    assert Closed(d);
    forall id: u8, k: nat | FoundAt(d, id, k) ensures exists m: nat :: m < BUDGET && FoundAt(d, id, m) {
      var m := BudgetSuffices(d, id, k);
    }
  }

  lemma NotClosedLoses(c: Config)
    requires !Closed(c)
    ensures exists d: Config :: SameLinks(c, d) && !NothingLost(d)
  {
    var o := Hop(c, BUDGET);
    hide Relabelled, NewId, Link, LinkAt;
    var d, x := Relabelled(c, o), NewId(c, o);
    RelabelledIs(c, o);
    SameHops(c, d, BUDGET);
    assert FoundAt(d, x, BUDGET);
    forall m: nat | m < BUDGET ensures !FoundAt(d, x, m) { SameHops(c, d, m); }
    assert SameLinks(c, d) && !NothingLost(d);
  }

  // ---- Lists behind the header ----

  /** The pointers the walk follows are 0 or point behind the header. */
  ghost predicate WellPlaced(cfg: Config) {
    forall k: nat :: k <= BUDGET ==> Hop(cfg, k) == 0 || FIRST <= Hop(cfg, k)
  }

  /** There are 48 places behind the header, so the walk cannot visit 49. */
  lemma PlacedIsClosed(cfg: Config)
    requires WellPlaced(cfg)
    ensures Closed(cfg)
  {
    if Hop(cfg, BUDGET) != 0 {
      var i, j := Repeats(cfg);
      Periodic(cfg, i, j, BUDGET - j);
      assert Hop(cfg, i + (BUDGET - j)) == Hop(cfg, BUDGET);
    }
  }

  /** Among 49 hops that all lead somewhere two lead to the same place. */
  lemma Repeats(cfg: Config) returns (i: nat, j: nat)
    requires WellPlaced(cfg) && Hop(cfg, BUDGET) != 0
    ensures i < j <= BUDGET && Hop(cfg, i) == Hop(cfg, j)
  {
    forall k: nat | k <= BUDGET ensures FIRST <= Hop(cfg, k) <= 0xFC {
      if Hop(cfg, k) == 0 { EndedStays(cfg, k, BUDGET); }
    }
    var s := seq(BUDGET + 1, k requires 0 <= k <= BUDGET => Hop(cfg, k) / 4 - 16);
    if forall a, b :: 0 <= a < b < |s| ==> s[a] != s[b] {
      Pigeonhole(s, BUDGET);
      assert false;
    }
    i, j :| 0 <= i < j < |s| && s[i] == s[j];
    assert Hop(cfg, i) == Hop(cfg, j);
  }

  // ---- The walk ----

  /** The walk returns the first capability with the id that the budget
      reaches, and 0 exactly when there is none; on a list that has ended or
      gone round by then, exactly when there is none on the whole list. */
  method FindCapability(cfg: Config, id: u8) returns (r: nat)
    ensures r != 0 ==> HasList(cfg) && exists k :: 0 <= k < 48 && r == Hop(cfg, k) && FoundAt(cfg, id, k)
                                                  && forall j :: 0 <= j < k ==> !FoundAt(cfg, id, j)
    ensures r == 0 <==> !HasList(cfg) || forall k :: 0 <= k < 48 ==> !FoundAt(cfg, id, k)
    ensures Closed(cfg) ==> (r == 0 <==> !HasList(cfg) || forall k: nat :: !FoundAt(cfg, id, k))
  {
    if cfg[STATUS_HIGH] / 16 % 2 != 1 { return 0; }
    var off := Link(cfg[CAP_PTR]);
    var hops := 0;
    while off != 0 && hops < BUDGET
      invariant 0 <= hops <= BUDGET && off == Hop(cfg, hops)
      invariant forall k :: 0 <= k < hops ==> !FoundAt(cfg, id, k)
      decreases BUDGET - hops
    {
      var here := cfg[off];
      var next := Link(cfg[off + 1]);
      assert next == LinkAt(cfg, off) == Hop(cfg, hops + 1);
      if here == id { return off; }
      if next == off {
        Stuck(cfg, id, hops);
        return 0;
      }
      off := next;
      hops := hops + 1;
    }
    if off == 0 { Stuck(cfg, id, hops); }
    if Closed(cfg) { WholeList(cfg, id); }
    r := 0;
  }

  // ---- Lists through the header ----

  /** A list that steps through the header too, one capability every four
      bytes from 4 to 0xFC. */
  function Longest(): Config { seq(256, i requires 0 <= i < 256 => LongestByte(i)) }

  function LongestByte(i: nat): u8
    requires i < 256
  {
    if i == CAP_PTR then 4 else if i == STATUS_HIGH then 16 else if i == 0xFC then 7
    else if i % 4 == 1 && i < 0xFC then i + 3 else 0
  }

  lemma LongestAt(i: nat)
    requires i < 256
    ensures Longest()[i] == LongestByte(i)
  {}

  lemma LongestLink(o: nat)
    requires 4 <= o < 0xFC && o % 4 == 0
    ensures LinkAt(Longest(), o) == o + 4
  {
    hide Longest;
    LongestAt(o + 1);
  }

  lemma LongestStart()
    ensures Link(Longest()[CAP_PTR]) == 4
  {
    hide Longest;
    LongestAt(CAP_PTR);
  }

  lemma {:induction false} LongestHops(k: nat)
    requires k <= 62
    ensures Hop(Longest(), k) == 4 * (k + 1)
  {
    hide Longest, Link, LinkAt;
    if k > 0 {
      LongestHops(k - 1);
      LongestLink(4 * k);
    } else {
      LongestStart();
    }
  }

  /** On such a list the budget runs out before the last capability. */
  lemma BudgetFallsShort()
    ensures HasList(Longest()) && FoundAt(Longest(), 7, 62) && forall k :: 0 <= k < BUDGET ==> !FoundAt(Longest(), 7, k)
    ensures !Closed(Longest())
  {
    hide Longest, Hop;
    LongestHops(62);
    LongestAt(0xFC);
    LongestAt(STATUS_HIGH);
    LongestHops(BUDGET);
    forall m: nat | m < BUDGET ensures Hop(Longest(), m) != Hop(Longest(), BUDGET) { LongestHops(m); }
    forall k | 0 <= k < BUDGET ensures !FoundAt(Longest(), 7, k) {
      LongestHops(k);
      LongestAt(4 * (k + 1));
    }
  }
}
