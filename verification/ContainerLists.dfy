/** repo_client.py: taking the excluded names out of the containers list. */
module ContainerLists {

  /** `list.remove(name)`, which leaves the list alone when the name is not in it. */
  function RemoveFirst(list: seq<string>, name: string): seq<string> {
    if list == [] then []
    else if list[0] == name then list[1..]
    else [list[0]] + RemoveFirst(list[1..], name)
  }

  function Excluded(list: seq<string>, excludes: seq<string>): seq<string>
    decreases |excludes|
  {
    if excludes == [] then list else Excluded(RemoveFirst(list, excludes[0]), excludes[1..])
  }

  /** A list object of names, which others may hold. */
  class NameList {
    var names: seq<string>

    constructor (names: seq<string>)
      ensures this.names == names
    {
      this.names := names;
    }

    /** `copy()`. */
    method Copy() returns (r: NameList)
      ensures fresh(r) && r.names == names
    {
      r := new NameList(names);
    }

    /** `remove(name)`; false stands for the ValueError. */
    method Remove(name: string) returns (found: bool)
      modifies this
      ensures found <==> name in old(names)
      ensures names == RemoveFirst(old(names), name)
    {
      var i := 0;
      while i < |names| && names[i] != name
        invariant i <= |names| && names == old(names) && name !in names[..i]
        invariant RemoveFirst(names, name) == names[..i] + RemoveFirst(names[i..], name)
      {
        assert RemoveFirst(names[i..], name) == [names[i]] + RemoveFirst(names[i + 1..], name);
        i := i + 1;
      }
      found := i < |names|;
      if found {
        assert names[i..][1..] == names[i + 1..];
        names := names[..i] + names[i + 1..];
      } else {
        assert names[..i] + [] == names;
      }
    }

    /** Removing each excluded name once, when it is there. */
    method RemoveAll(excludeList: NameList)
      requires excludeList != this
      modifies this
      ensures names == Excluded(old(names), excludeList.names)
    {
      for n := 0 to |excludeList.names|
        invariant excludeList.names == old(excludeList.names)
        invariant Excluded(old(names), excludeList.names) == Excluded(names, excludeList.names[n..])
      {
        var _ := Remove(excludeList.names[n]);
      }
    }
  }

  /** The end of `load_excludes`: both results are new list objects, made from the full list. No
      list that exists before is changed, even if one of them is given in several places. */
  method LoadExcludes(fullList: NameList, excludeList: NameList, ppcExcludeList: NameList)
    returns (containers: NameList, ppcContainers: NameList)
    ensures fresh(containers) && fresh(ppcContainers) && containers != ppcContainers
    ensures containers.names == Excluded(fullList.names, excludeList.names)
    ensures ppcContainers.names == Excluded(fullList.names, ppcExcludeList.names)
  {
    containers := fullList.Copy();
    containers.RemoveAll(excludeList);
    ppcContainers := fullList.Copy();
    ppcContainers.RemoveAll(ppcExcludeList);
  }

  /** The positions of one list in another, in order. */
  predicate Embeds(part: seq<string>, list: seq<string>, idx: seq<nat>) {
    && |idx| == |part|
    && (forall k | 0 <= k < |idx| :: idx[k] < |list| && list[idx[k]] == part[k])
    && (forall j, k | 0 <= j < k < |idx| :: idx[j] < idx[k])
  }

  ghost predicate IsSubsequence(part: seq<string>, list: seq<string>) {
    exists idx :: Embeds(part, list, idx)
  }

  function Count(list: seq<string>, name: string): nat {
    if list == [] then 0 else (if list[0] == name then 1 else 0) + Count(list[1..], name)
  }

  /** A list in the tail of another is in the other, one place further on. */
  lemma ShiftEmbeds(part: seq<string>, list: seq<string>, rest: seq<nat>) returns (idx: seq<nat>)
    requires list != [] && Embeds(part, list[1..], rest)
    ensures Embeds(part, list, idx) && forall k | 0 <= k < |idx| :: idx[k] > 0
  {
    idx := seq(|rest|, k requires 0 <= k < |rest| => rest[k] + 1);
  }

  lemma {:induction false} RemoveFirstEmbeds(list: seq<string>, name: string) returns (idx: seq<nat>)
    ensures Embeds(RemoveFirst(list, name), list, idx)
    decreases |list|
  {
    if list == [] {
      idx := [];
    } else if list[0] == name {
      var all := seq(|list| - 1, k requires 0 <= k < |list| - 1 => k);
      assert Embeds(list[1..], list[1..], all);
      idx := ShiftEmbeds(list[1..], list, all);
    } else {
      hide Embeds;
      var rest := RemoveFirstEmbeds(list[1..], name);
      var shifted := ShiftEmbeds(RemoveFirst(list[1..], name), list, rest);
      idx := [0] + shifted;
      ConsEmbeds(RemoveFirst(list[1..], name), list, shifted);
    }
  }

  lemma ConsEmbeds(part: seq<string>, list: seq<string>, shifted: seq<nat>)
    requires list != [] && Embeds(part, list, shifted) && forall k | 0 <= k < |shifted| :: shifted[k] > 0
    ensures Embeds([list[0]] + part, list, [0] + shifted)
  {
  }

  lemma {:induction false} RemoveFirstCounts(list: seq<string>, name: string, n: string)
    ensures Count(RemoveFirst(list, name), n) ==
            if n == name && Count(list, n) > 0 then Count(list, n) - 1 else Count(list, n)
    decreases |list|
  {
    if list == [] || list[0] == name {
    } else {
      RemoveFirstCounts(list[1..], name, n);
      assert RemoveFirst(list, name)[1..] == RemoveFirst(list[1..], name);
    }
  }

  lemma SubsequenceIsTransitive(a: seq<string>, b: seq<string>, c: seq<string>)
    requires IsSubsequence(a, b) && IsSubsequence(b, c)
    ensures IsSubsequence(a, c)
  {
    var ab :| Embeds(a, b, ab);
    var bc :| Embeds(b, c, bc);
    var idx := seq(|a|, k requires 0 <= k < |a| => bc[ab[k]]);
    assert Embeds(a, c, idx);
  }

  /** What is left is a subsequence of the list, in which each name occurs as often as in the
      list less its number of exclusions, or not at all when there are as many or more. */
  lemma {:induction false} ExcludedIsTheRest(list: seq<string>, excludes: seq<string>)
    ensures IsSubsequence(Excluded(list, excludes), list)
    ensures forall n :: Count(Excluded(list, excludes), n) ==
              if Count(list, n) > Count(excludes, n) then Count(list, n) - Count(excludes, n) else 0
    decreases |excludes|
  {
    if excludes == [] {
      assert Embeds(list, list, seq(|list|, k => k));
    } else {
      var once := RemoveFirst(list, excludes[0]);
      var idx := RemoveFirstEmbeds(list, excludes[0]);
      assert IsSubsequence(once, list);
      ExcludedIsTheRest(once, excludes[1..]);
      SubsequenceIsTransitive(Excluded(once, excludes[1..]), once, list);
      forall n ensures Count(Excluded(list, excludes), n) ==
                       if Count(list, n) > Count(excludes, n) then Count(list, n) - Count(excludes, n) else 0
      {
        RemoveFirstCounts(list, excludes[0], n);
      }
    }
  }
}
