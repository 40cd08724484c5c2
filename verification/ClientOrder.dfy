/** The order in which `Promoter.promote` calls the clients: reverse alphabetical, which puts
    the DLRN client last. */
module ClientOrder {

  const DLRN := "dlrn_client"
  const DOCKERFILE := "dockerfile_client"
  const QCOW := "qcow_client"
  const REGISTRIES := "registries_client"

  /** The attributes of the promoter that have a `promote` method. */
  predicate IsClient(name: string) {
    name == DLRN || name == DOCKERFILE || name == QCOW || name == REGISTRIES
  }

  /** Python's `<` on strings. */
  predicate Less(a: string, b: string) {
    b != "" && (a == "" || a[0] < b[0] || (a[0] == b[0] && Less(a[1..], b[1..])))
  }

  /** At place k the first string ends, or has the smaller character, and before it they are one. */
  predicate DiffersAt(a: string, b: string, k: nat) {
    k <= |a| && k < |b| && a[..k] == b[..k] && (k == |a| || a[k] < b[k])
  }

  /** The order is alphabetical. */
  lemma {:induction false} LessIs(a: string, b: string)
    ensures Less(a, b) <==> exists k: nat :: DiffersAt(a, b, k)
    decreases |a|
  {
    if a == "" || b == "" {
      assert b != "" ==> DiffersAt(a, b, 0);
    } else if a[0] == b[0] {
      LessIs(a[1..], b[1..]);
      if Less(a, b) {
        var k: nat :| DiffersAt(a[1..], b[1..], k);
        assert a == [a[0]] + a[1..] && b == [b[0]] + b[1..];
        assert a[..k + 1] == [a[0]] + a[1..][..k] && b[..k + 1] == [b[0]] + b[1..][..k];
        assert DiffersAt(a, b, k + 1);
      }
      if k: nat :| DiffersAt(a, b, k) {
        assert k > 0 && a[1..][..k - 1] == a[..k][1..] && b[1..][..k - 1] == b[..k][1..];
        assert DiffersAt(a[1..], b[1..], k - 1);
      }
    } else {
      assert a[0] < b[0] ==> DiffersAt(a, b, 0);
      forall k: nat | 0 < k <= |a| && k < |b| ensures !DiffersAt(a, b, k) {
        assert a[..k][0] == a[0] && b[..k][0] == b[0];
      }
    }
  }

  lemma {:induction false} NotLessIsTransitive(a: string, b: string, c: string)
    requires !Less(a, b) && !Less(b, c)
    ensures !Less(a, c)
    decreases |a|
  {
    if a == "" || b == "" || c == "" {
    } else if a[0] == b[0] == c[0] {
      NotLessIsTransitive(a[1..], b[1..], c[1..]);
    }
  }

  lemma {:induction false} LessIsAsymmetric(a: string, b: string)
    requires Less(a, b)
    ensures !Less(b, a)
    decreases |a|
  {
    if a == "" {
    } else if a[0] == b[0] {
      LessIsAsymmetric(a[1..], b[1..]);
    }
  }

  ghost predicate Descending(names: seq<string>) {
    forall i, j | 0 <= i < j < |names| :: !Less(names[i], names[j])
  }

  function Insert(sorted: seq<string>, name: string): (r: seq<string>)
    ensures multiset(r) == multiset(sorted) + multiset{name}
  {
    if sorted == [] then [name]
    else if Less(sorted[0], name) then [name] + sorted
    else
      assert sorted == [sorted[0]] + sorted[1..];
      [sorted[0]] + Insert(sorted[1..], name)
  }

  lemma {:induction false} InsertKeepsDescending(sorted: seq<string>, name: string)
    requires Descending(sorted)
    ensures Descending(Insert(sorted, name))
  {
    if sorted == [] {
    } else {
      if Less(sorted[0], name) {
        LessIsAsymmetric(sorted[0], name);
        forall j | 0 <= j < |sorted| ensures !Less(name, sorted[j]) {
          if j > 0 {
            NotLessIsTransitive(name, sorted[0], sorted[j]);
          }
        }
      } else {
        var rest := Insert(sorted[1..], name);
        InsertKeepsDescending(sorted[1..], name);
        forall j | 0 <= j < |rest| ensures !Less(sorted[0], rest[j]) {
          assert rest[j] in multiset(rest);
          assert rest[j] in multiset(sorted[1..]) + multiset{name};
        }
      }
    }
  }

  /** `names.sort(reverse=True)`. */
  function SortDescending(names: seq<string>): (r: seq<string>)
    ensures Descending(r) && multiset(r) == multiset(names)
  {
    if names == [] then []
    else
      var init, last := names[..|names| - 1], names[|names| - 1];
      assert names == init + [last];
      InsertKeepsDescending(SortDescending(init), last);
      Insert(SortDescending(init), last)
  }

  ghost predicate Distinct(names: seq<string>) {
    forall i, j | 0 <= i < j < |names| :: names[i] != names[j]
  }

  /** The DLRN client's name sorts before the other clients' names. */
  lemma DlrnIsLeast(name: string)
    requires IsClient(name) && name != DLRN
    ensures Less(DLRN, name)
  {
    if name == DOCKERFILE {
      assert DLRN[1..][0] == 'l' && DOCKERFILE[1..][0] == 'o';
    } else {
      assert DLRN[0] == 'd' && QCOW[0] == 'q' && REGISTRIES[0] == 'r';
    }
  }

  /** In the sorted list of distinct clients nothing comes after the DLRN client. */
  lemma DlrnComesLast(sorted: seq<string>, i: nat)
    requires Descending(sorted) && Distinct(sorted) && i < |sorted| && sorted[i] == DLRN
    requires forall c | c in sorted :: IsClient(c)
    ensures i == |sorted| - 1
  {
    if i < |sorted| - 1 {
      assert sorted[i] != sorted[i + 1] && sorted[i + 1] in sorted;
      assert !Less(sorted[i], sorted[i + 1]);
      DlrnIsLeast(sorted[i + 1]);
    }
  }

  /** Sorting keeps the clients, each once. */
  lemma SortKeepsClients(names: seq<string>)
    requires Distinct(names)
    ensures Distinct(SortDescending(names))
    ensures forall c :: c in SortDescending(names) <==> c in names
  {
    var sorted := SortDescending(names);
    forall c ensures c in sorted <==> c in names {
      assert c in sorted <==> c in multiset(sorted);
      assert c in names <==> c in multiset(names);
    }
    forall i, j | 0 <= i < j < |sorted| ensures sorted[i] != sorted[j] {
      if sorted[i] == sorted[j] {
        TwiceIn(sorted, i, j);
        OnceIn(names, sorted[i]);
      }
    }
  }

  lemma TwiceIn(names: seq<string>, i: nat, j: nat)
    requires i < j < |names| && names[i] == names[j]
    ensures multiset(names)[names[i]] >= 2
  {
    assert names == names[..j] + [names[j]] + names[j + 1..];
    assert names[i] in names[..j];
  }

  lemma {:induction false} OnceIn(names: seq<string>, name: string)
    requires Distinct(names)
    ensures multiset(names)[name] <= 1
  {
    if names == [] {
    } else {
      assert names == [names[0]] + names[1..];
      OnceIn(names[1..], name);
      if name == names[0] {
        assert name !in names[1..];
      }
    }
  }
}
