/** The list of driver instances in pcmcia/ircard_cs.c: attach, detach, release and unloading. */
module DevList {
  /** dev_link_t, with the state bits the list handling looks at. */
  class Link {
    var next: Link?
    var config: bool
    var staleLink: bool
    var staleConfig: bool
    var open: bool

    constructor ()
      ensures next == null && !config && !staleLink && !staleConfig && !open
    {
      next := null;
      config, staleLink, staleConfig, open := false, false, false, false;
    }
  }

  /** What decides the fate of an instance when the module is unloaded. */
  datatype Status = Status(config: bool, open: bool) {
    predicate Stuck() {
      config && open
    }
  }

  /** The sequence without the first `x`, everything else in its order. */
  ghost function Without<T>(s: seq<T>, x: T): seq<T> {
    if s == [] then [] else if s[0] == x then s[1..] else [s[0]] + Without(s[1..], x)
  }

  lemma {:induction false} WithoutAbsent<T>(s: seq<T>, x: T)
    requires x !in s
    ensures Without(s, x) == s
  {
    if s != [] {
      WithoutAbsent(s[1..], x);
    }
  }

  lemma {:induction false} WithoutAt<T>(s: seq<T>, i: nat)
    requires i < |s| && s[i] !in s[..i]
    ensures Without(s, s[i]) == s[..i] + s[i + 1..]
  {
    if i > 0 {
      assert s[..i][0] == s[0];
      assert s[1..][..i - 1] == s[..i][1..];
      WithoutAt(s[1..], i - 1);
      assert s[..i] + s[i + 1..] == [s[0]] + (s[1..][..i - 1] + s[1..][i..]);
    }
  }

  class Driver {
    var devList: Link?
    ghost var links: seq<Link>

    ghost predicate Valid()
      reads this, links
    {
      && (forall i, j :: 0 <= i < j < |links| ==> links[i] != links[j])
      && devList == (if links == [] then null else links[0])
      && (forall i, j :: 0 <= i < j < |links| && j == i + 1 ==> links[i].next == links[j])
      && (links != [] ==> links[|links| - 1].next == null)
    }

    ghost function Statuses(): (s: seq<Status>)
      reads this, links
      ensures |s| == |links|
    {
      seq(|links|, i requires 0 <= i < |links| reads this, links => Status(links[i].config, links[i].open))
    }

    constructor ()
      ensures Valid() && links == []
    {
      devList := null;
      links := [];
    }

    /** A failed registration leaves the list as it was. */
    method Attach(registers: bool) returns (link: Link?)
      requires Valid()
      modifies this, links
      ensures Valid()
      ensures forall l :: l in old(links) ==>
                && l.config == old(l.config) && l.open == old(l.open)
                && l.staleLink == old(l.staleLink) && l.staleConfig == old(l.staleConfig)
      ensures registers ==> link != null && fresh(link) && links == [link] + old(links)
      ensures !registers ==> link == null && links == old(links)
    {
      var node := new Link();
      node.next := devList;
      devList := node;
      links := [node] + links;
      if !registers {
        Detach(node);
        return null;
      }
      link := node;
    }

    /** Takes the link off the list, unless it is configured: then it is only marked. */
    method Detach(link: Link)
      requires Valid()
      modifies this, links, link
      ensures Valid()
      ensures links == if old(link.config) then old(links) else Without(old(links), link)
      ensures link.staleLink == (old(link.staleLink) || (link in old(links) && link.config))
      ensures forall l :: l in old(links) || l == link ==>
                l.config == old(l.config) && l.open == old(l.open) && l.staleConfig == old(l.staleConfig)
      ensures forall l :: l in old(links) && l != link ==> l.staleLink == old(l.staleLink)
    {
      hide Without;
      var prev, found, i := Locate(link);
      if !found {
        WithoutAbsent(links, link);
        return;
      }
      if link.config {
        link.staleLink := true;
        return;
      }
      if prev == null {
        devList := link.next;
      } else {
        prev.next := link.next;
      }
      WithoutAt(links, i);
      links := links[..i] + links[i + 1..];
    }

    /** Walks the list to the link, keeping the one whose `next` leads to it. */
    method Locate(link: Link) returns (prev: Link?, found: bool, ghost i: nat)
      requires Valid()
      ensures found == (link in links) && i <= |links|
      ensures found ==> i < |links| && links[i] == link && link !in links[..i]
      ensures found ==> prev == if i == 0 then null else links[i - 1]
    {
      prev := null;
      var here := devList;
      i := 0;
      while here != null && here != link
        invariant 0 <= i <= |links|
        invariant here == if i < |links| then links[i] else null
        invariant prev == if i > 0 then links[i - 1] else null
        invariant link !in links[..i]
        decreases |links| - i
      {
        prev := here;
        here := here.next;
        i := i + 1;
      }
      found := here != null;
      assert !found ==> links[..i] == links;
    }

    /** Gives the card's resources back, unless the device is open. It never takes the link off the
        list, whatever a postponed detach asked for. */
    method Release(link: Link)
      requires Valid()
      modifies link
      ensures Valid() && links == old(links)
      ensures link.next == old(link.next) && link.open == old(link.open) && link.staleLink == old(link.staleLink)
      ensures link.config == (old(link.config) && link.open)
      ensures link.staleConfig == (old(link.staleConfig) || link.open)
    {
      if link.open {
        link.staleConfig := true;
        return;
      }
      link.config := false;
    }

    /** A detach postponed because the link is configured is not made up for by the release. */
    method DetachThenRelease(link: Link)
      requires Valid() && link in links && link.config && !link.open
      modifies this, links, link
      ensures Valid() && links == old(links)
      ensures link in links && link.staleLink && !link.config
    {
      Detach(link);
      Release(link);
    }

    /** One turn of the unloading loop: releases the first instance if it must, and detaches it. */
    method CleanupTurn()
      requires Valid() && devList != null
      modifies this, links
      ensures Valid()
      ensures links == if old(Statuses())[0].Stuck() then old(links) else old(links)[1..]
      ensures forall l :: l in links ==> l.config == old(l.config) && l.open == old(l.open)
      ensures Statuses() == Turn(old(Statuses()))
    {
      ghost var first := links[0];
      if devList.config {
        Release(devList);
      }
      Detach(devList);
    }

    /** Unloading empties the list when no configured instance is open. */
    method CleanupModule()
      requires Valid() && forall l :: l in links ==> !(l.config && l.open)
      modifies this, links
      ensures Valid() && devList == null && links == []
    {
      while devList != null
        invariant Valid() && forall i :: 0 <= i < |links| ==> links[i] in old(links)
        invariant forall i :: 0 <= i < |links| ==> !(links[i].config && links[i].open)
        decreases |links|
      {
        hide Turn;
        assert !Statuses()[0].Stuck();
        CleanupTurn();
      }
    }
  }

  /** The loop's effect on the statuses: a stuck first instance stays where it is. */
  function Turn(list: seq<Status>): seq<Status> {
    if list == [] || list[0].Stuck() then list else list[1..]
  }

  function Turns(list: seq<Status>, n: nat): seq<Status> {
    if n == 0 then list else Turns(Turn(list), n - 1)
  }

  predicate AnyStuck(list: seq<Status>) {
    exists i :: 0 <= i < |list| && list[i].Stuck()
  }

  lemma {:induction false} StuckForever(list: seq<Status>, n: nat)
    requires AnyStuck(list)
    ensures AnyStuck(Turns(list, n))
    decreases n
  {
    if n > 0 {
      var i :| 0 <= i < |list| && list[i].Stuck();
      if !list[0].Stuck() {
        assert list[1..][i - 1].Stuck();
      }
      StuckForever(Turn(list), n - 1);
    }
  }

  lemma {:induction false} TurnsEmpty(list: seq<Status>)
    requires !AnyStuck(list)
    ensures Turns(list, |list|) == []
    decreases |list|
  {
    if list != [] {
      assert !list[0].Stuck();
      assert forall i :: 0 <= i < |list[1..]| ==> list[1..][i] == list[i + 1];
      TurnsEmpty(list[1..]);
    }
  }

  /** Unloading ends exactly when no instance is both configured and open. */
  lemma CleanupEndsExactly(list: seq<Status>)
    ensures (exists n: nat :: Turns(list, n) == []) <==> !AnyStuck(list)
  {
    if AnyStuck(list) {
      forall n: nat
        ensures Turns(list, n) != []
      {
        StuckForever(list, n);
      }
    } else {
      TurnsEmpty(list);
    }
  }
}
