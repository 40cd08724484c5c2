/** diff_builds.py: the highest version of each package in a build, and the difference between
    the packages of two builds. */
module PackageDiffs {
  import opened Outcomes

  /** Epoch, version and release; the epoch may be empty. */
  datatype Evr = Evr(epoch: string, version: string, release: string)

  /** What is reported for a package: its version, and its full version. */
  datatype Version = Version(version: string, full: string)

  /** A label comparison: 1 when the first argument is the higher. */
  type Compare = (Evr, Evr) -> int

  predicate Beats(cmp: Compare, a: Evr, b: Evr) {
    cmp(a, b) == 1
  }

  /** Being beaten or tied is a total preorder. */
  ghost predicate TotalPreorder(cmp: Compare) {
    && (forall a, b :: Beats(cmp, a, b) ==> !Beats(cmp, b, a))
    && (forall a, b, c :: !Beats(cmp, a, b) && !Beats(cmp, b, c) ==> !Beats(cmp, a, c))
  }

  function FullVersion(e: Evr): (r: string)
    ensures '-' in r
  {
    assert '-' in e.version + "-" + e.release by {
      assert (e.version + "-" + e.release)[|e.version|] == '-';
    }
    if e.epoch == "" then e.version + "-" + e.release
    else
      assert (e.epoch + "-" + e.version + "-" + e.release)[|e.epoch|] == '-';
      e.epoch + "-" + e.version + "-" + e.release
  }

  // ---- The highest version ----

  /** The running maximum over a list, from a first candidate on. */
  function Highest(cmp: Compare, best: Evr, rest: seq<Evr>): Evr
    decreases |rest|
  {
    if rest == [] then best
    else Highest(cmp, if Beats(cmp, rest[0], best) then rest[0] else best, rest[1..])
  }

  method FindHighestVersion(packages: map<string, seq<Evr>>, cmp: Compare) returns (r: Outcome<map<string, Version>>)
    ensures r.Raised? <==> exists k :: k in packages && packages[k] == []
    ensures r.Raised? ==> r.error == IndexError
    ensures r.Returned? ==> r.value.Keys == packages.Keys && Produced(r.value)
    ensures r.Returned? ==> forall k | k in packages ::
              packages[k] != [] && var h := Highest(cmp, packages[k][0], packages[k]);
                                   r.value[k] == Version(h.version, FullVersion(h))
  {
    var dictOfRpms: map<string, Version> := map[];
    var left := packages.Keys;
    while left != {}
      invariant left <= packages.Keys && dictOfRpms.Keys == packages.Keys - left
      invariant forall k | k in dictOfRpms ::
                  packages[k] != [] && var h := Highest(cmp, packages[k][0], packages[k]);
                                       dictOfRpms[k] == Version(h.version, FullVersion(h))
    {
      var key :| key in left;
      left := left - {key};
      var items := packages[key];
      if items == [] {
        return Raised(IndexError);
      }
      var highest := items[0];
      for n := 0 to |items|
        invariant Highest(cmp, items[0], items) == Highest(cmp, highest, items[n..])
      {
        if Beats(cmp, items[n], highest) {
          highest := items[n];
        }
      }
      dictOfRpms := dictOfRpms[key := Version(highest.version, FullVersion(highest))];
    }
    return Returned(dictOfRpms);
  }

  lemma NothingBeatsItself(cmp: Compare, a: Evr)
    requires TotalPreorder(cmp)
    ensures !Beats(cmp, a, a)
  {
  }

  lemma {:induction false} HighestIsUnbeaten(cmp: Compare, best: Evr, rest: seq<Evr>)
    requires TotalPreorder(cmp)
    ensures var h := Highest(cmp, best, rest);
            && (h == best || h in rest)
            && !Beats(cmp, best, h)
            && forall x | x in rest :: !Beats(cmp, x, h)
    decreases |rest|
  {
    NothingBeatsItself(cmp, best);
    if rest == [] {
    } else {
      var next := if Beats(cmp, rest[0], best) then rest[0] else best;
      HighestIsUnbeaten(cmp, next, rest[1..]);
      var h := Highest(cmp, best, rest);
      NothingBeatsItself(cmp, rest[0]);
      assert !Beats(cmp, best, next) && !Beats(cmp, rest[0], next);
      assert !Beats(cmp, next, h);
      assert forall x | x in rest :: x == rest[0] || x in rest[1..];
    }
  }

  /** The chosen element of a list is in it, and no element beats it. In whatever order the same
      elements are listed, the choices tie. */
  lemma HighestIgnoresOrderUpToTies(cmp: Compare, a: seq<Evr>, b: seq<Evr>)
    requires TotalPreorder(cmp) && a != [] && b != [] && forall x :: x in a <==> x in b
    ensures var ha, hb := Highest(cmp, a[0], a), Highest(cmp, b[0], b);
            && ha in a && hb in b
            && (forall x | x in a :: !Beats(cmp, x, ha) && !Beats(cmp, x, hb))
            && !Beats(cmp, ha, hb) && !Beats(cmp, hb, ha)
  {
    HighestIsUnbeaten(cmp, a[0], a);
    HighestIsUnbeaten(cmp, b[0], b);
  }

  // ---- The difference of two builds ----

  type Packages = map<string, Version>

  function Absent(notFound: string): Version {
    Version("0", notFound)
  }

  function Side(p: Packages, key: string, notFound: string): Version {
    if key in p then p[key] else Absent(notFound)
  }

  predicate Differs(control: Packages, test: Packages, key: string) {
    !(key in control && key in test && control[key] == test[key])
  }

  /** The packages that differ, with their control and test versions. */
  function Diff(control: Packages, test: Packages, notFound: string): map<string, (Version, Version)> {
    map k | k in control.Keys + test.Keys && Differs(control, test, k) ::
      (Side(control, k, notFound), Side(test, k, notFound))
  }

  /** The difference restricted to some keys. */
  function Part(control: Packages, test: Packages, notFound: string, keys: set<string>): map<string, (Version, Version)>
  {
    map k | k in keys && Differs(control, test, k) :: (Side(control, k, notFound), Side(test, k, notFound))
  }

  lemma PartNext(control: Packages, test: Packages, notFound: string, keys: set<string>, key: string)
    ensures Part(control, test, notFound, keys + {key}) ==
            var part := Part(control, test, notFound, keys);
            if Differs(control, test, key) then part[key := (Side(control, key, notFound), Side(test, key, notFound))]
            else part
  {
  }

  method DiffPackages(control: Packages, test: Packages, notFound: string)
    returns (diff: map<string, (Version, Version)>)
    ensures diff == Diff(control, test, notFound)
  {
    hide Part;
    diff := map[];
    ghost var done := {};
    assert diff == Part(control, test, notFound, done) by {
      NothingDone(control, test, notFound);
    }
    var left := control.Keys * test.Keys;
    while left != {}
      invariant left <= control.Keys * test.Keys == done + left
      invariant diff == Part(control, test, notFound, done)
    {
      var key :| key in left;
      left := left - {key};
      PartNext(control, test, notFound, done, key);
      done := done + {key};
      if control[key] != test[key] {
        diff := diff[key := (control[key], test[key])];
      }
    }
    left := control.Keys - test.Keys;
    while left != {}
      invariant left <= control.Keys - test.Keys && done + left == control.Keys
      invariant diff == Part(control, test, notFound, done)
    {
      var key :| key in left;
      left := left - {key};
      PartNext(control, test, notFound, done, key);
      done := done + {key};
      diff := diff[key := (control[key], Absent(notFound))];
    }
    left := test.Keys - control.Keys;
    while left != {}
      invariant left <= test.Keys - control.Keys && done + left == control.Keys + test.Keys
      invariant diff == Part(control, test, notFound, done)
    {
      var key :| key in left;
      left := left - {key};
      PartNext(control, test, notFound, done, key);
      done := done + {key};
      diff := diff[key := (Absent(notFound), test[key])];
    }
    assert done == control.Keys + test.Keys;
    PartOfAll(control, test, notFound);
  }

  lemma NothingDone(control: Packages, test: Packages, notFound: string)
    ensures Part(control, test, notFound, {}) == map[]
  {
  }

  lemma PartOfAll(control: Packages, test: Packages, notFound: string)
    ensures Part(control, test, notFound, control.Keys + test.Keys) == Diff(control, test, notFound)
  {
  }

  /** Turning a control build into the test build by its difference. */
  function Apply(control: Packages, diff: map<string, (Version, Version)>, notFound: string): Packages {
    map k | k in control.Keys + diff.Keys && !(k in diff && diff[k].1 == Absent(notFound)) ::
      if k in diff then diff[k].1 else control[k]
  }

  function Swapped(diff: map<string, (Version, Version)>): map<string, (Version, Version)> {
    map k | k in diff :: (diff[k].1, diff[k].0)
  }

  /** Applying the difference rebuilds the test build if and only if no changed package of it
      has the very version that marks absence. */
  lemma ApplyRebuildsIff(control: Packages, test: Packages, notFound: string)
    ensures Apply(control, Diff(control, test, notFound), notFound) == test <==>
            forall k | k in test && test[k] == Absent(notFound) :: !Differs(control, test, k)
  {
    var d := Diff(control, test, notFound);
    var r := Apply(control, d, notFound);
    if forall k | k in test && test[k] == Absent(notFound) :: !Differs(control, test, k) {
      forall k ensures (k in r <==> k in test) && (k in test ==> r[k] == test[k]) {
        if k in test {
          assert k in d <==> Differs(control, test, k);
        }
      }
      assert r == test;
    } else {
      var k :| k in test && test[k] == Absent(notFound) && Differs(control, test, k);
      assert k in d && k !in r;
    }
  }

  /** A build where it fails: the package has the very version that marks absence, and is lost. */
  lemma MarkerVersionIsLost()
    ensures var control, test := map["package" := Version("1", "1-1")], map["package" := Version("0", "not installed")];
            Apply(control, Diff(control, test, "not installed"), "not installed") == map[]
  {
    var control, test := map["package" := Version("1", "1-1")], map["package" := Version("0", "not installed")];
    assert Differs(control, test, "package");
    assert "package" in Diff(control, test, "not installed");
  }

  /** What the version search produces: full versions with a dash. */
  predicate Produced(p: Packages) {
    forall k | k in p :: '-' in p[k].full
  }

  /** The difference is empty exactly when the builds are equal. */
  lemma NoDifferenceIff(control: Packages, test: Packages, notFound: string)
    ensures Diff(control, test, notFound) == map[] <==> control == test
  {
    var d := Diff(control, test, notFound);
    if d == map[] {
      forall k ensures (k in control <==> k in test) && (k in control ==> control[k] == test[k]) {
        assert k !in d;
      }
      assert control == test;
    } else {
      var k :| k in d;
      assert Differs(control, test, k);
    }
  }

  lemma SwappingSwaps(control: Packages, test: Packages, notFound: string)
    ensures Diff(test, control, notFound) == Swapped(Diff(control, test, notFound))
  {
    forall k ensures Differs(test, control, k) == Differs(control, test, k) {
    }
  }

  /** On produced builds, with a marker that has no dash such as "not installed": the difference
      rebuilds the test build from the control build, and swapped, the control build from the
      test build; it is empty exactly when the builds are equal; and swapping the arguments
      swaps the pairs. */
  lemma DiffIsFaithful(control: Packages, test: Packages, notFound: string)
    requires Produced(control) && Produced(test) && '-' !in notFound
    ensures var d := Diff(control, test, notFound);
            && Apply(control, d, notFound) == test
            && Apply(test, Swapped(d), notFound) == control
            && (d == map[] <==> control == test)
            && Diff(test, control, notFound) == Swapped(d)
  {
    hide Diff, Apply, Swapped;
    ApplyRebuildsIff(control, test, notFound);
    ApplyRebuildsIff(test, control, notFound);
    SwappingSwaps(control, test, notFound);
    NoDifferenceIff(control, test, notFound);
  }
}
