/**
 * The GPT partition cache (common/gpt/gpt.c): disks are read once, and lookups and
 * listings answer from the cache until it is freed. Section 5.3 of the UEFI Specification
 * describes the table.
 */
module Gpt {
  import opened Machine

  datatype Status = Success | NotFound | OutOfResources | DeviceError

  /** A partition entry; `used` is a type GUID other than zero. */
  datatype Part = Part(used: bool, name: string, startingLba: nat, endingLba: nat)

  /** A cached disk: its BlockIo and DiskIo handle, and as many entries as its header announces. */
  datatype Disk = Disk(io: nat, parts: seq<Part>)

  /** An entry together with the disk it lives on. */
  datatype PartInterface = PartInterface(part: Part, io: nat)

  /** What reading one BlockIo handle gives: a disk with a GPT, or an error. */
  datatype Probe = HasGpt(disk: Disk) | NoGpt

  /**
   * What the firmware answers when the cache is filled. Any first answer but "buffer too
   * small" is handed on as it is, a success included; the cache then stays empty.
   */
  datatype Firmware = LocateFails(st: Status) | Handles(allocOk: bool, probes: seq<Probe>)

  // ------------------------------------------------------------ what the disks hold

  /** The k-th handle has a GPT with an entry p. */
  predicate EntryAt(probes: seq<Probe>, k: nat, p: nat)
  {
    k < |probes| && probes[k].HasGpt? && p < |probes[k].disk.parts|
  }

  /** That entry is in use and has this name. */
  predicate Named(probes: seq<Probe>, k: nat, p: nat, name: string)
  {
    EntryAt(probes, k, p) && probes[k].disk.parts[p].used && probes[k].disk.parts[p].name == name
  }

  /** The place of an entry: its disk's handle, and its number on that disk. */
  datatype Spot = Spot(k: nat, p: nat)

  /** Handle order, and entry order on one disk. */
  predicate Before(k: nat, p: nat, k': nat, p': nat)
  {
    k < k' || (k == k' && p < p')
  }

  /** The entry of that name that comes first, with the handle of its disk; or nothing, if there is none. */
  ghost predicate IsFirst(probes: seq<Probe>, name: string, found: Option<PartInterface>)
  {
    match found
    case None => forall k: nat, p: nat :: !Named(probes, k, p, name)
    case Some(e) =>
      exists k: nat, p: nat ::
        && Named(probes, k, p, name) && e == PartInterface(probes[k].disk.parts[p], probes[k].disk.io)
        && forall k': nat, p': nat | Before(k', p', k, p) :: !Named(probes, k', p', name)
  }

  /** The entry is in use and has a name. */
  predicate ToBeListed(probes: seq<Probe>, k: nat, p: nat)
  {
    EntryAt(probes, k, p) && probes[k].disk.parts[p].used && probes[k].disk.parts[p].name != ""
  }

  /** Places in strictly increasing order. */
  ghost predicate InOrder(at: seq<Spot>)
  {
    forall i, j | 0 <= i < j < |at| :: Before(at[i].k, at[i].p, at[j].k, at[j].p)
  }

  /** The list shows the entries at these places. */
  ghost predicate Shows(probes: seq<Probe>, list: seq<PartInterface>, at: seq<Spot>)
  {
    && |list| == |at|
    && forall i | 0 <= i < |at| ::
         && EntryAt(probes, at[i].k, at[i].p)
         && list[i] == PartInterface(probes[at[i].k].disk.parts[at[i].p], probes[at[i].k].disk.io)
  }

  /** The list shows each entry in use that has a name, in order, and nothing else. */
  ghost predicate IsListing(probes: seq<Probe>, list: seq<PartInterface>)
  {
    exists at: seq<Spot> ::
      && InOrder(at) && Shows(probes, list, at)
      && forall k: nat, p: nat :: ToBeListed(probes, k, p) <==> Spot(k, p) in at
  }

  /** The entries of all disks with a GPT. */
  function EntrySum(probes: seq<Probe>): nat
  {
    if probes == [] then 0
    else (if probes[0].HasGpt? then |probes[0].disk.parts| else 0) + EntrySum(probes[1..])
  }

  // ------------------------------------------------------------ specification

  function DisksOf(probes: seq<Probe>): seq<Disk>
  {
    if probes == [] then []
    else DisksOf(probes[..|probes| - 1]) +
         (match probes[|probes| - 1] case HasGpt(disk) => [disk] case NoGpt => [])
  }

  function TotalEntries(disks: seq<Disk>): nat
  {
    if disks == [] then 0 else TotalEntries(disks[..|disks| - 1]) + |disks[|disks| - 1].parts|
  }

  /** The first n entries of one disk. */
  function Interfaces(disk: Disk, n: nat): (r: seq<PartInterface>)
    requires n <= |disk.parts|
    ensures |r| == n
  {
    seq(n, (i: nat) requires i < n => PartInterface(disk.parts[i], disk.io))
  }

  /** Every cached entry in search order: disk by disk, entry by entry. */
  function AllEntries(disks: seq<Disk>): seq<PartInterface>
  {
    if disks == [] then []
    else AllEntries(disks[..|disks| - 1]) + Interfaces(disks[|disks| - 1], |disks[|disks| - 1].parts|)
  }

  predicate Listed(e: PartInterface)
  {
    e.part.used && e.part.name != ""
  }

  predicate Matches(e: PartInterface, name: string)
  {
    e.part.used && e.part.name == name
  }

  function Filter(es: seq<PartInterface>): (r: seq<PartInterface>)
    ensures |r| <= |es|
  {
    if es == [] then []
    else Filter(es[..|es| - 1]) + if Listed(es[|es| - 1]) then [es[|es| - 1]] else []
  }

  function FirstMatch(es: seq<PartInterface>, name: string): Option<PartInterface>
  {
    if es == [] then None
    else if Matches(es[0], name) then Some(es[0])
    else FirstMatch(es[1..], name)
  }

  // ------------------------------------------------------------ the code

  lemma NothingListed()
    ensures Filter([]) == [] && AllEntries([]) == []
  {
  }

  lemma NextDisk(disks: seq<Disk>, i: nat)
    requires i < |disks|
    ensures AllEntries(disks[..i + 1]) == AllEntries(disks[..i]) + Interfaces(disks[i], |disks[i].parts|)
  {
    assert disks[..i + 1][..i] == disks[..i];
  }

  lemma {:induction false} EntriesCount(disks: seq<Disk>)
    ensures |AllEntries(disks)| == TotalEntries(disks)
  {
    if disks != [] {
      EntriesCount(disks[..|disks| - 1]);
    }
  }

  /** The entries of a prefix of the disks are a prefix of all entries. */
  lemma {:induction false} EntriesPrefix(disks: seq<Disk>, i: nat)
    requires i <= |disks|
    ensures AllEntries(disks[..i]) <= AllEntries(disks)
    decreases |disks|
  {
    if i == |disks| {
      assert disks[..i] == disks;
    } else {
      assert disks[..|disks| - 1][..i] == disks[..i];
      EntriesPrefix(disks[..|disks| - 1], i);
    }
  }

  /** The entries visited so far, and the next one, open the sequence of all entries. */
  lemma PrefixOfAll(disks: seq<Disk>, i: nat, p: nat, done: seq<PartInterface>, next: PartInterface)
    requires i < |disks| && p < |disks[i].parts|
    requires done == AllEntries(disks[..i]) + Interfaces(disks[i], p)
    requires next == PartInterface(disks[i].parts[p], disks[i].io)
    ensures |done| + 1 <= |AllEntries(disks)|
    ensures AllEntries(disks) == done + [next] + AllEntries(disks)[|done| + 1..]
  {
    EntriesPrefix(disks, i + 1);
    assert disks[..i + 1][..i] == disks[..i];
    var upto := AllEntries(disks[..i + 1]);
    assert upto == AllEntries(disks[..i]) + Interfaces(disks[i], |disks[i].parts|);
    assert upto[..|done| + 1] == done + [next];
    assert AllEntries(disks)[..|done| + 1] == upto[..|done| + 1];
  }

  /** The entries of one disk, one further. */
  lemma OneMore(disk: Disk, p: nat)
    requires p < |disk.parts|
    ensures Interfaces(disk, p + 1) == Interfaces(disk, p) + [PartInterface(disk.parts[p], disk.io)]
  {
  }

  lemma {:induction false} FirstAfter(xs: seq<PartInterface>, e: PartInterface, ys: seq<PartInterface>, name: string)
    requires (forall x | x in xs :: !Matches(x, name)) && Matches(e, name)
    ensures FirstMatch(xs + [e] + ys, name) == Some(e)
    decreases |xs|
  {
    var all := xs + [e] + ys;
    if xs == [] {
      assert all[0] == e;
    } else {
      assert all[1..] == xs[1..] + [e] + ys && all[0] == xs[0];
      FirstAfter(xs[1..], e, ys, name);
    }
  }

  lemma {:induction false} NoneMatches(xs: seq<PartInterface>, name: string)
    requires forall x | x in xs :: !Matches(x, name)
    ensures FirstMatch(xs, name) == None
    decreases |xs|
  {
    if xs != [] {
      NoneMatches(xs[1..], name);
    }
  }

  // ------------------------------------------------------------ the cache has it all

  function PlacesOf(k: nat, n: nat): (r: seq<Spot>)
    ensures |r| == n && forall p | 0 <= p < n :: r[p] == Spot(k, p)
  {
    seq(n, (p: nat) => Spot(k, p))
  }

  /** The places of all entries, in order. */
  function Places(probes: seq<Probe>): seq<Spot>
  {
    if probes == [] then []
    else
      var k := |probes| - 1;
      Places(probes[..k]) + if probes[k].HasGpt? then PlacesOf(k, |probes[k].disk.parts|) else []
  }

  lemma {:induction false} PlacesRight(probes: seq<Probe>)
    ensures InOrder(Places(probes))
    ensures forall k: nat, p: nat :: EntryAt(probes, k, p) <==> Spot(k, p) in Places(probes)
  {
    if probes != [] {
      var k := |probes| - 1;
      var front, all := Places(probes[..k]), Places(probes);
      PlacesRight(probes[..k]);
      assert forall i | 0 <= i < |front| :: front[i] in front && EntryAt(probes[..k], front[i].k, front[i].p);
      forall k': nat, p: nat
        ensures EntryAt(probes, k', p) <==> Spot(k', p) in all
      {
        assert k' < k ==> (EntryAt(probes, k', p) <==> EntryAt(probes[..k], k', p));
        if k' == k && EntryAt(probes, k', p) {
          assert PlacesOf(k, |probes[k].disk.parts|)[p] == Spot(k, p);
        }
      }
    }
  }

  /** What the last handle adds to the cached entries. */
  lemma LastHandle(probes: seq<Probe>)
    requires probes != []
    ensures var front, last := probes[..|probes| - 1], probes[|probes| - 1];
            && AllEntries(DisksOf(probes)) == AllEntries(DisksOf(front)) +
                 (if last.HasGpt? then Interfaces(last.disk, |last.disk.parts|) else [])
            && TotalEntries(DisksOf(probes)) == TotalEntries(DisksOf(front)) +
                 (if last.HasGpt? then |last.disk.parts| else 0)
  {
    var front, last := probes[..|probes| - 1], probes[|probes| - 1];
    var ds := DisksOf(front);
    if last.HasGpt? {
      assert DisksOf(probes) == ds + [last.disk] && (ds + [last.disk])[..|ds|] == ds;
    } else {
      assert DisksOf(probes) == ds + [] == ds;
    }
  }

  lemma ShownStep(probes: seq<Probe>, list: seq<PartInterface>, at: seq<Spot>)
    requires probes != [] && Shows(probes[..|probes| - 1], list, at)
    ensures var k := |probes| - 1;
            if probes[k].HasGpt? then
              Shows(probes, list + Interfaces(probes[k].disk, |probes[k].disk.parts|),
                    at + PlacesOf(k, |probes[k].disk.parts|))
            else Shows(probes, list + [], at + [])
  {
    var k := |probes| - 1;
    assert forall i | 0 <= i < |at| :: EntryAt(probes[..k], at[i].k, at[i].p);
    forall k': nat, p: nat | EntryAt(probes[..k], k', p)
      ensures EntryAt(probes, k', p) && probes[..k][k'] == probes[k']
    {
    }
  }

  /** The cached entries are those at the places. */
  lemma {:induction false} EntriesShown(probes: seq<Probe>)
    ensures Shows(probes, AllEntries(DisksOf(probes)), Places(probes))
  {
    if probes == [] {
      NothingListed();
    } else {
      hide AllEntries, DisksOf;
      var k := |probes| - 1;
      EntriesShown(probes[..k]);
      LastHandle(probes);
      ShownStep(probes, AllEntries(DisksOf(probes[..k])), Places(probes[..k]));
    }
  }

  lemma {:induction false} EntrySumAppend(probes: seq<Probe>, last: Probe)
    ensures EntrySum(probes + [last]) == EntrySum(probes) + if last.HasGpt? then |last.disk.parts| else 0
    decreases |probes|
  {
    if probes == [] {
      assert probes + [last] == [last] && [last][1..] == [];
    } else {
      assert (probes + [last])[1..] == probes[1..] + [last];
      EntrySumAppend(probes[1..], last);
    }
  }

  /** The count kept beside the cache is the sum over the disks with a GPT. */
  lemma {:induction false} CountIsSum(probes: seq<Probe>)
    ensures TotalEntries(DisksOf(probes)) == EntrySum(probes)
  {
    if probes != [] {
      var front, last := probes[..|probes| - 1], probes[|probes| - 1];
      assert front + [last] == probes;
      CountIsSum(front);
      EntrySumAppend(front, last);
      LastHandle(probes);
    }
  }

  lemma {:induction false} FirstIndex(es: seq<PartInterface>, name: string) returns (i: nat)
    ensures i <= |es| && forall j | 0 <= j < i :: !Matches(es[j], name)
    ensures if i == |es| then FirstMatch(es, name) == None
            else Matches(es[i], name) && FirstMatch(es, name) == Some(es[i])
    decreases |es|
  {
    if es == [] || Matches(es[0], name) {
      i := 0;
    } else {
      var rest := FirstIndex(es[1..], name);
      i := rest + 1;
      assert forall j | 1 <= j < |es| :: es[j] == es[1..][j - 1];
    }
  }

  /** Searching the cache finds the first entry of that name on the disks. */
  lemma FoundIsFirst(probes: seq<Probe>, name: string)
    ensures IsFirst(probes, name, FirstMatch(AllEntries(DisksOf(probes)), name))
  {
    hide AllEntries, DisksOf, Places, FirstMatch;
    var es, at := AllEntries(DisksOf(probes)), Places(probes);
    PlacesRight(probes);
    EntriesShown(probes);
    var i := FirstIndex(es, name);
    forall k: nat, p: nat | Named(probes, k, p, name)
      ensures i < |es| && (Before(at[i].k, at[i].p, k, p) || at[i] == Spot(k, p))
    {
      var j :| 0 <= j < |at| && at[j] == Spot(k, p);
      assert Matches(es[j], name);
      assert i <= j;
    }
    if i < |es| {
      assert Named(probes, at[i].k, at[i].p, name);
    }
  }

  /** A listed entry is shown at its place as well. */
  lemma ShowsStep(probes: seq<Probe>, es: seq<PartInterface>, at: seq<Spot>, list: seq<PartInterface>, kept: seq<Spot>)
    requires es != [] && Shows(probes, es, at) && Shows(probes, list, kept)
    ensures Shows(probes, list + [es[|es| - 1]], kept + [at[|es| - 1]])
    ensures Listed(es[|es| - 1]) <==> ToBeListed(probes, at[|es| - 1].k, at[|es| - 1].p)
  {
  }

  lemma FrontShown(probes: seq<Probe>, es: seq<PartInterface>, at: seq<Spot>)
    requires es != [] && Shows(probes, es, at) && InOrder(at)
    ensures |at| == |es| && Shows(probes, es[..|es| - 1], at[..|es| - 1]) && InOrder(at[..|es| - 1])
  {
  }

  lemma InOrderStep(at: seq<Spot>, kept: seq<Spot>)
    requires at != [] && InOrder(at) && InOrder(kept) && forall x | x in kept :: x in at[..|at| - 1]
    ensures InOrder(kept + [at[|at| - 1]])
  {
    var n := |at| - 1;
    forall i | 0 <= i < |kept|
      ensures Before(kept[i].k, kept[i].p, at[n].k, at[n].p)
    {
      assert kept[i] in kept;
      var j :| 0 <= j < n && at[..n][j] == kept[i];
      assert at[j] == kept[i];
    }
  }

  /** Filtering the cached entries keeps places of those that are listed. */
  lemma {:induction false} FilterShows(probes: seq<Probe>, es: seq<PartInterface>, at: seq<Spot>)
    returns (kept: seq<Spot>)
    requires Shows(probes, es, at) && InOrder(at)
    ensures Shows(probes, Filter(es), kept) && InOrder(kept)
    ensures forall x :: x in kept <==> x in at && ToBeListed(probes, x.k, x.p)
  {
    if es == [] {
      kept := [];
    } else {
      hide ToBeListed, Listed, Shows, InOrder;
      var n := |es| - 1;
      FrontShown(probes, es, at);
      kept := FilterShows(probes, es[..n], at[..n]);
      assert at == at[..n] + [at[n]];
      ShowsStep(probes, es, at, Filter(es[..n]), kept);
      if Listed(es[n]) {
        InOrderStep(at, kept);
        kept := kept + [at[n]];
      }
    }
  }

  /** Listing the cache lists the disks. */
  lemma ListedIsListing(probes: seq<Probe>)
    ensures IsListing(probes, Filter(AllEntries(DisksOf(probes))))
  {
    hide AllEntries, DisksOf, Places, Filter;
    PlacesRight(probes);
    EntriesShown(probes);
    var kept := FilterShows(probes, AllEntries(DisksOf(probes)), Places(probes));
    forall k: nat, p: nat
      ensures ToBeListed(probes, k, p) <==> Spot(k, p) in kept
    {
      assert Spot(k, p).k == k && Spot(k, p).p == p;
    }
  }

  lemma NothingCached()
    ensures DisksOf([]) == [] && TotalEntries([]) == 0
  {
  }

  /** One more handle. */
  lemma NextHandle(probes: seq<Probe>, i: nat)
    requires i < |probes|
    ensures var now, next := DisksOf(probes[..i]), DisksOf(probes[..i + 1]);
            if probes[i].HasGpt? then
              next == now + [probes[i].disk] && TotalEntries(next) == TotalEntries(now) + |probes[i].disk.parts|
            else next == now
  {
    var now := DisksOf(probes[..i]);
    assert probes[..i + 1][..i] == probes[..i];
    if probes[i].HasGpt? {
      assert (now + [probes[i].disk])[..|now|] == now;
    }
  }

  class Cache {
    /** `disks`, NULL before the first fill and after a free. */
    var disks: Option<seq<Disk>>
    var npart: nat
    /** What reading the handles gave when the cache was filled. */
    ghost var source: seq<Probe>

    /** The cache holds what was read, the entry count is its sum, and nothing is counted without a cache. */
    ghost predicate Valid()
      reads this
    {
      match disks
      case Some(ds) => ds == DisksOf(source) && npart == TotalEntries(ds)
      case None => npart == 0
    }

    /** The disks the search loops run over. */
    function Cached(): seq<Disk>
      reads this
    {
      match disks case Some(ds) => ds case None => []
    }

    constructor ()
      ensures Valid() && disks == None
    {
      disks, npart, source := None, 0, [];
    }

    /** `gpt_cache_partition`, called without a cache. */
    method Fill(fw: Firmware) returns (st: Status)
      requires Valid() && disks == None
      modifies this
      ensures Valid()
      ensures match fw
              case LocateFails(s) => st == s && disks == None
              case Handles(allocOk, probes) =>
                if |probes| == 0 then st == NotFound && disks == None
                else if !allocOk then st == OutOfResources && disks == None
                else st == Success && disks.Some? && source == probes && npart == EntrySum(probes)
    {
      match fw
      case LocateFails(s) =>
        return s;
      case Handles(allocOk, probes) =>
        if |probes| == 0 {
          return NotFound;
        }
        if !allocOk {
          return OutOfResources;
        }
        hide DisksOf, TotalEntries, EntrySum;
        NothingCached();
        assert probes[..0] == [];
        var found: seq<Disk> := [];
        var i := 0;
        while i < |probes|
          invariant 0 <= i <= |probes|
          invariant found == DisksOf(probes[..i]) && npart == TotalEntries(found)
          invariant disks == None
        {
          NextHandle(probes, i);
          if probes[i].HasGpt? {
            npart := npart + |probes[i].disk.parts|;
            found := found + [probes[i].disk];
          }
          i := i + 1;
        }
        assert probes[..i] == probes;
        CountIsSum(probes);
        disks, source := Some(found), probes;
        return Success;
    }

    method Free()
      requires Valid()
      modifies this
      ensures Valid() && disks == None
    {
      disks, npart := None, 0;
    }

    /** `gpt_list_partition`: fills a buffer of exactly npart slots, never past its end. */
    method List(fw: Firmware, allocOk: bool) returns (st: Status, list: seq<PartInterface>)
      requires Valid()
      modifies this
      ensures Valid()
      ensures old(disks).Some? ==> disks == old(disks) && source == old(source)
      ensures old(disks).None? && disks.Some? ==> fw.Handles? && source == fw.probes
      ensures old(disks).None? && fw.Handles? && fw.allocOk && fw.probes != [] ==> disks.Some?
      ensures disks.Some? ==> st == if allocOk then Success else OutOfResources
      ensures disks.Some? && st == Success ==> IsListing(source, list) && |list| <= npart == EntrySum(source)
      ensures disks.None? && st == Success ==> list == []
    {
      hide Filter, Interfaces, AllEntries, TotalEntries, DisksOf, IsListing, EntrySum;
      list := [];
      if disks.None? {
        st := Fill(fw);
        if st != Success {
          return;
        }
      }
      if !allocOk {
        return OutOfResources, [];
      }
      var ds := Cached();
      ghost var filled, probes := disks, source;
      EntriesCount(ds);
      NothingListed();
      assert ds[..0] == [];
      var slots := new PartInterface[npart](_ => PartInterface(Part(false, "", 0, 0), 0));
      var count: nat := 0;
      var i := 0;
      while i < |ds|
        invariant 0 <= i <= |ds| && disks == filled && source == probes && npart == slots.Length
        invariant count <= slots.Length && slots[..count] == Filter(AllEntries(ds[..i]))
      {
        NextDisk(ds, i);
        EntriesPrefix(ds, i + 1);
        count := ListDisk(slots, count, ds[i], AllEntries(ds[..i]));
        i := i + 1;
      }
      assert ds[..i] == ds;
      ListedIsListing(source);
      CountIsSum(source);
      return Success, slots[..count];
    }

    /** The inner loop of the listing; `before` are the entries already visited. */
    method ListDisk(slots: array<PartInterface>, count0: nat, disk: Disk, ghost before: seq<PartInterface>)
      returns (count: nat)
      requires |before| + |disk.parts| <= slots.Length
      requires count0 <= slots.Length && slots[..count0] == Filter(before)
      modifies slots
      ensures count <= slots.Length && slots[..count] == Filter(before + Interfaces(disk, |disk.parts|))
    {
      count := count0;
      var p := 0;
      ghost var done := before;
      while p < |disk.parts|
        invariant 0 <= p <= |disk.parts| && done == before + Interfaces(disk, p)
        invariant count <= slots.Length && slots[..count] == Filter(done)
      {
        ghost var next := PartInterface(disk.parts[p], disk.io);
        assert (done + [next])[..|done|] == done;
        if disk.parts[p].used && disk.parts[p].name != "" {
          slots[count] := PartInterface(disk.parts[p], disk.io);
          count := count + 1;
        }
        done := done + [next];
        p := p + 1;
      }
    }

    /** The search loops of the lookup. */
    method Search(ds: seq<Disk>, name: string) returns (found: Option<PartInterface>)
      ensures found == FirstMatch(AllEntries(ds), name)
    {
      hide Interfaces, AllEntries, FirstMatch;
      NothingListed();
      ghost var done: seq<PartInterface> := [];
      var i := 0;
      assert ds[..0] == [];
      while i < |ds|
        invariant 0 <= i <= |ds| && done == AllEntries(ds[..i])
        invariant forall e | e in done :: !Matches(e, name)
      {
        ghost var before := done;
        NextDisk(ds, i);
        var p := 0;
        while p < |ds[i].parts|
          invariant 0 <= p <= |ds[i].parts| && done == before + Interfaces(ds[i], p)
          invariant forall e | e in done :: !Matches(e, name)
        {
          ghost var next := PartInterface(ds[i].parts[p], ds[i].io);
          if ds[i].parts[p].used && ds[i].parts[p].name == name {
            PrefixOfAll(ds, i, p, done, next);
            FirstAfter(done, next, AllEntries(ds)[|done| + 1..], name);
            return Some(PartInterface(ds[i].parts[p], ds[i].io));
          }
          OneMore(ds[i], p);
          done := done + [next];
          p := p + 1;
        }
        i := i + 1;
      }
      assert ds[..i] == ds;
      NoneMatches(done, name);
      return None;
    }

    /** `gpt_get_partition_by_label`. */
    method GetByLabel(fw: Firmware, name: string) returns (st: Status, found: Option<PartInterface>)
      requires Valid()
      modifies this
      ensures Valid()
      ensures old(disks).Some? ==> disks == old(disks) && source == old(source)
      ensures old(disks).None? && disks.Some? ==> fw.Handles? && source == fw.probes
      ensures old(disks).None? && fw.Handles? && fw.allocOk && fw.probes != [] ==> disks.Some?
      ensures disks.Some? ==> IsFirst(source, name, found) && st == if found.Some? then Success else NotFound
      ensures disks.None? ==> found == None && st != Success
    {
      hide DisksOf, TotalEntries, IsFirst, EntrySum;
      if disks.None? {
        st := Fill(fw);
        if st != Success {
          return st, None;
        }
      }
      FoundIsFirst(source, name);
      found := Search(Cached(), name);
      st := if found.Some? then Success else NotFound;
    }
  }

  // ------------------------------------------------------------ listing and lookup agree

  lemma {:induction false} FilterConcat(e: PartInterface, es: seq<PartInterface>)
    ensures Filter([e] + es) == (if Listed(e) then [e] else []) + Filter(es)
    decreases |es|
  {
    if es == [] {
      assert [e] + es == [e] && [e][..0] == [];
    } else {
      var front := es[..|es| - 1];
      assert ([e] + es)[..|es|] == [e] + front;
      FilterConcat(e, front);
    }
  }

  lemma {:induction false} ListedAreNamed(es: seq<PartInterface>)
    ensures forall e | e in Filter(es) :: Listed(e)
    decreases |es|
  {
    if es != [] {
      ListedAreNamed(es[..|es| - 1]);
    }
  }

  lemma {:induction false} FirstFound(es: seq<PartInterface>, name: string)
    ensures FirstMatch(es, name).Some? <==> exists e :: e in es && Matches(e, name)
    decreases |es|
  {
    if es != [] {
      FirstFound(es[1..], name);
      assert forall e :: e in es <==> e == es[0] || e in es[1..];
    }
  }

  /**
   * Looking a label up gives the first listed partition of that name, or nothing if none is
   * listed, for every label but the empty one. Listing skips unnamed partitions while the
   * lookup does not, so for the empty label they agree only if no partition in use is unnamed.
   */
  lemma {:induction false} LookupAgreesWithListing(es: seq<PartInterface>, name: string)
    ensures FirstMatch(es, name) == FirstMatch(Filter(es), name)
            <==> name != "" || forall e | e in es :: !Matches(e, "")
    decreases |es|
  {
    if es != [] {
      assert [es[0]] + es[1..] == es;
      FilterConcat(es[0], es[1..]);
      LookupAgreesWithListing(es[1..], name);
      if Listed(es[0]) {
        assert ([es[0]] + Filter(es[1..]))[1..] == Filter(es[1..]);
      } else {
        assert [] + Filter(es[1..]) == Filter(es[1..]);
      }
      if name == "" {
        ListedAreNamed(es);
        NoneMatches(Filter(es), "");
        FirstFound(es, "");
      }
    }
  }
}
