/** The commit/distro and aggregate hashes of dlrn_hash.py: construction from keyword
    arguments, dictionaries or API objects, the sanity checks, equality and dumping. */
module DlrnHashes {
  import opened Outcomes

  /** An attribute value: None, a string, or a number. */
  datatype Attr = Nil | Text(s: string) | Number(n: int)

  datatype Kind = CommitDistro | Aggregate

  datatype HashValue = HashValue(
    kind: Kind, commit: Attr, distro: Attr, extended: Attr,
    aggregate: Attr, timestamp: Attr, component: Attr)

  /** What `source=` can be: nothing, a dictionary, or an object with attributes. */
  datatype Source = NoSource | Dict(entries: map<string, Attr>) | Object(entries: map<string, Attr>)

  /** Keyword arguments; `aggregate` records whether the key was passed at all. */
  datatype Args = Args(
    commit: Attr, distro: Attr, extended: Attr, timestamp: Attr,
    aggregate: Option<Attr>, component: Attr, source: Source)

  const VALID_ATTRIBUTES := {"commit_hash", "distro_hash", "extended_hash",
                             "aggregate_hash", "timestamp", "component"}

  // ---- Hexadecimal and extended-hash checks ----

  predicate IsHexDigit(c: char) {
    '0' <= c <= '9' || 'a' <= c <= 'f' || 'A' <= c <= 'F'
  }

  predicate IsBlank(c: char) {
    c == ' ' || '\t' <= c <= '\r'
  }

  /** Reading an ASCII string the way Python's `int(s, 16)` does: blanks, a sign, a `0x`
      prefix, and digits with single underscores between them. */
  datatype HexState = Start | Signed | Zero | Prefixed | Digits | Joined | Ending

  function Next(r: HexState, c: char): Option<HexState> {
    if r.Start? && IsBlank(c) then Some(Start)
    else if r.Start? && (c == '+' || c == '-') then Some(Signed)
    else if (r.Start? || r.Signed?) && c == '0' then Some(Zero)
    else if r.Zero? && (c == 'x' || c == 'X') then Some(Prefixed)
    else if !r.Ending? && IsHexDigit(c) then Some(Digits)
    else if (r.Zero? || r.Prefixed? || r.Digits?) && c == '_' then Some(Joined)
    else if (r.Zero? || r.Digits? || r.Ending?) && IsBlank(c) then Some(Ending)
    else None
  }

  /** Whether the rest of the string can be read to an end. */
  predicate Reads(s: string, r: HexState) {
    if s == "" then r.Zero? || r.Digits? || r.Ending?
    else match Next(r, s[0]) case None => false case Some(r') => Reads(s[1..], r')
  }

  /** Whether Python's `int(s, 16)` accepts an ASCII string. */
  predicate ParsesBase16(s: string) {
    Reads(s, Start)
  }

  predicate CheckHash(a: Attr) {
    a.Nil? || (a.Text? && ParsesBase16(a.s))
  }

  /** Python's `s.split(c)`. */
  function Split(s: string, c: char): (parts: seq<string>)
    ensures |parts| >= 1
  {
    if s == [] then [""]
    else
      var rest := Split(s[1..], c);
      if s[0] == c then [""] + rest else [[s[0]] + rest[0]] + rest[1..]
  }

  predicate IsUnset(extended: Attr) {
    extended == Nil || extended == Text("None") || extended == Text("")
  }

  function CheckExtendedHash(a: Attr): Option<Error> {
    if IsUnset(a) then None
    else if a.Number? then Some(AttributeError)
    else
      var parts := Split(a.s, '_');
      if |parts| == 2 && CheckHash(Text(parts[0])) && CheckHash(Text(parts[1]))
      then None else Some(DlrnHashError)
  }

  /** The `sanity_check` of either class: the error it raises, if any. */
  function SanityCheck(h: HashValue): Option<Error> {
    if h.commit.Nil? || h.distro.Nil? || (h.kind.Aggregate? && h.aggregate.Nil?) then Some(DlrnHashError)
    else if !CheckHash(h.commit) || !CheckHash(h.distro) then Some(DlrnHashError)
    else if h.kind.Aggregate? && !CheckHash(h.aggregate) then Some(DlrnHashError)
    else CheckExtendedHash(h.extended)
  }

  /** What every successfully built hash satisfies. */
  predicate Valid(h: HashValue) {
    SanityCheck(h).None? && (h.extended.Nil? || !IsUnset(h.extended))
  }

  type Hash = h: HashValue | Valid(h)
    witness HashValue(CommitDistro, Text("a"), Text("b"), Nil, Nil, Nil, Nil)

  // ---- What the checks accept ----

  /** From any state that takes digits, digits are read to the end. */
  lemma {:induction false} DigitsRead(s: string, r: HexState)
    requires forall i | 0 <= i < |s| :: IsHexDigit(s[i])
    requires r.Zero? || r.Digits? || (s != "" && r.Start?)
    ensures Reads(s, r)
    decreases |s|
  {
    if s == "" {
    } else {
      DigitsRead(s[1..], if s[0] == '0' && r.Start? then Zero else Digits);
    }
  }

  /** Every string of hexadecimal digits is accepted, of any length but zero. */
  lemma HexDigitsParse(s: string)
    requires s != "" && forall i | 0 <= i < |s| :: IsHexDigit(s[i])
    ensures ParsesBase16(s)
  {
    DigitsRead(s, Start);
  }

  /** The characters that can stand in an accepted string. */
  predicate CanOccur(c: char) {
    IsHexDigit(c) || IsBlank(c) || c == '+' || c == '-' || c == '_' || c == 'x' || c == 'X'
  }

  lemma {:induction false} ReadsOnlyHex(s: string, r: HexState)
    requires Reads(s, r)
    ensures forall i | 0 <= i < |s| :: CanOccur(s[i])
    ensures (r.Start? || r.Signed? || r.Prefixed? || r.Joined?) ==> exists i :: 0 <= i < |s| && IsHexDigit(s[i])
    decreases |s|
  {
    if s == "" {
    } else {
      var r' := Next(r, s[0]).value;
      ReadsOnlyHex(s[1..], r');
      assert forall i | 0 < i < |s| :: s[i] == s[1..][i - 1];
      if (r.Start? || r.Signed? || r.Prefixed? || r.Joined?) && !IsHexDigit(s[0]) {
        var i :| 0 <= i < |s[1..]| && IsHexDigit(s[1..][i]);
        assert IsHexDigit(s[i + 1]);
      }
    }
  }

  /** Nothing else is: an accepted string has a digit, and beside digits only blanks, signs,
      underscores and the letter of a prefix. */
  lemma OnlyHexParses(s: string)
    requires ParsesBase16(s)
    ensures (forall i | 0 <= i < |s| :: CanOccur(s[i])) && exists i :: 0 <= i < |s| && IsHexDigit(s[i])
  {
    ReadsOnlyHex(s, Start);
  }

  lemma {:induction false} SplitWithout(s: string)
    requires '_' !in s
    ensures Split(s, '_') == [s]
    decreases |s|
  {
    if s == "" {
    } else {
      SplitWithout(s[1..]);
      assert [s[0]] + s[1..] == s;
    }
  }

  /** Splitting takes off what stands before the first underscore. */
  lemma {:induction false} SplitFirst(a: string, rest: string)
    requires '_' !in a
    ensures Split(a + "_" + rest, '_') == [a] + Split(rest, '_')
    decreases |a|
  {
    if a == "" {
      assert a + "_" + rest == "_" + rest && ("_" + rest)[1..] == rest;
    } else {
      SplitFirst(a[1..], rest);
      assert (a + "_" + rest)[1..] == a[1..] + "_" + rest;
      assert [a[0]] + a[1..] == a;
    }
  }

  lemma SplitAtUnderscore(a: string, b: string)
    requires '_' !in a && '_' !in b
    ensures Split(a + "_" + b, '_') == [a, b]
  {
    SplitFirst(a, b);
    SplitWithout(b);
  }

  lemma {:induction false} PartsHaveNone(s: string, c: char)
    ensures forall p | p in Split(s, c) :: c !in p
    decreases |s|
  {
    if s == "" {
    } else {
      PartsHaveNone(s[1..], c);
      var rest := Split(s[1..], c);
      assert rest[0] in rest;
      if s[0] != c {
        forall p | p in Split(s, c) ensures c !in p {
          assert p == [s[0]] + rest[0] || p in rest[1..];
        }
      }
    }
  }

  lemma {:induction false} SplitOne(s: string)
    requires |Split(s, '_')| == 1
    ensures Split(s, '_')[0] == s
    decreases |s|
  {
    if s == "" {
    } else {
      SplitOne(s[1..]);
      assert [s[0]] + s[1..] == s;
    }
  }

  lemma {:induction false} SplitTwo(s: string)
    requires |Split(s, '_')| == 2
    ensures s == Split(s, '_')[0] + "_" + Split(s, '_')[1]
    decreases |s|
  {
    var rest := Split(s[1..], '_');
    assert s == [s[0]] + s[1..];
    if s[0] == '_' {
      SplitOne(s[1..]);
      assert [s[0]] == "_" && "" + "_" + s[1..] == "_" + s[1..];
    } else {
      SplitTwo(s[1..]);
      assert [s[0]] + (rest[0] + "_" + rest[1]) == ([s[0]] + rest[0]) + "_" + rest[1];
    }
  }

  /** Two hexadecimal halves around an underscore. */
  ghost predicate IsExtended(s: string, a: string, b: string) {
    s == a + "_" + b && '_' !in a && '_' !in b && ParsesBase16(a) && ParsesBase16(b)
  }

  /** An extended hash passes its check when it is unset, or text of two hexadecimal halves; other text
      is a DlrnHashError. */
  lemma ExtendedPassesIff(extended: Attr)
    ensures CheckExtendedHash(extended).None? <==>
            IsUnset(extended) || (extended.Text? && exists a, b :: IsExtended(extended.s, a, b))
    ensures extended.Text? && CheckExtendedHash(extended).Some? ==> CheckExtendedHash(extended) == Some(DlrnHashError)
  {
    hide ParsesBase16, Split;
    if extended.Text? {
      var parts := Split(extended.s, '_');
      if |parts| == 2 {
        SplitTwo(extended.s);
        PartsHaveNone(extended.s, '_');
        assert parts[0] in parts && parts[1] in parts;
        assert CheckHash(Text(parts[0])) && CheckHash(Text(parts[1])) ==> IsExtended(extended.s, parts[0], parts[1]);
      }
      if a, b :| IsExtended(extended.s, a, b) {
        SplitAtUnderscore(a, b);
      }
    }
  }

  predicate IsHex(a: Attr) {
    a.Text? && ParsesBase16(a.s)
  }

  /** The sanity check passes when commit and distro are hexadecimal, for an aggregate its hash as well,
      and the extended hash passes its own check. */
  lemma SanityIff(h: HashValue)
    ensures SanityCheck(h).None? <==>
            && IsHex(h.commit) && IsHex(h.distro) && (h.kind.Aggregate? ==> IsHex(h.aggregate))
            && (IsUnset(h.extended) || (h.extended.Text? && exists a, b :: IsExtended(h.extended.s, a, b)))
  {
    hide ParsesBase16, CheckExtendedHash;
    ExtendedPassesIff(h.extended);
  }

  // ---- Construction ----

  function Pick(source: Source, key: string, default: Attr): Attr {
    if !source.NoSource? && key in source.entries then source.entries[key] else default
  }

  function Normalised(extended: Attr): Attr {
    if IsUnset(extended) then Nil else extended
  }

  /** `DlrnHashBase.__init__` followed by the class's sanity check. */
  function Build(kind: Kind, a: Args): (r: Outcome<HashValue>)
    ensures r.Returned? ==> Valid(r.value) && r.value.kind == kind
  {
    if a.source.Object? && a.source.entries.Keys !! VALID_ATTRIBUTES then Raised(DlrnHashError)
    else
      var passed := match a.aggregate case None => Nil case Some(v) => v;
      var h := HashValue(
        kind,
        Pick(a.source, "commit_hash", a.commit),
        Pick(a.source, "distro_hash", a.distro),
        Normalised(Pick(a.source, "extended_hash", Normalised(a.extended))),
        Pick(a.source, "aggregate_hash", passed),
        Pick(a.source, "timestamp", a.timestamp),
        Pick(a.source, "component", a.component));
      match SanityCheck(h)
      case Some(e) => Raised(e)
      case None => Returned(h)
  }

  /** `DlrnHash.__new__`: a commit/distro hash is always built first; an aggregate hash
      replaces it when the keyword, or else the source, carries an aggregate. */
  function New(a: Args): (r: Outcome<HashValue>)
    ensures r.Returned? ==> Valid(r.value)
  {
    var first := Build(CommitDistro, a);
    var aggregate := match a.aggregate
                     case Some(v) => v
                     case None => Pick(a.source, "aggregate_hash", Nil);
    if first.Raised? || aggregate.Nil? then first else Build(Aggregate, a)
  }

  function FromSource(source: Source): Args {
    Args(Nil, Nil, Nil, Nil, None, Nil, source)
  }

  /** A source that has every attribute decides alone: the keywords given beside it are ignored, except
      for the aggregate, which still chooses the class. */
  lemma SourceDecides(kind: Kind, a: Args)
    requires !a.source.NoSource? && VALID_ATTRIBUTES <= a.source.entries.Keys
    ensures Build(kind, a) == Build(kind, FromSource(a.source))
    ensures a.aggregate.None? ==> New(a) == New(FromSource(a.source))
  {
    hide SanityCheck;
  }

  // ---- Equality, names and dumps ----

  /** `a.__eq__(b)`: which attributes count is decided by the class of the receiver. */
  predicate Eq(a: HashValue, b: HashValue) {
    && a.commit == b.commit
    && a.distro == b.distro
    && a.extended == b.extended
    && a.timestamp == b.timestamp
    && (if a.kind.Aggregate? then a.aggregate == b.aggregate else a.component == b.component)
  }

  function FullHash(h: Hash): string {
    if h.kind.Aggregate? then h.aggregate.s
    else
      var base := h.commit.s + "_" + Take(h.distro.s, 8);
      if h.extended.Nil? then base
      else
        var parts := Split(h.extended.s, '_');
        base + "_" + Take(parts[0], 8) + "_" + Take(parts[1], 8)
  }

  function DumpToDict(h: Hash): map<string, Attr> {
    var common := map["commit_hash" := h.commit, "distro_hash" := h.distro,
                      "extended_hash" := h.extended, "full_hash" := Text(FullHash(h)),
                      "timestamp" := h.timestamp];
    if h.kind.Aggregate? then common["aggregate_hash" := Text(FullHash(h))]
    else common["component" := h.component]
  }

  /** A hash as the API carries it, in either direction. */
  datatype ApiHash = ApiHash(
    commit: Attr, distro: Attr, extended: Attr, aggregate: Attr, timestamp: Attr, component: Attr)

  /** `dump_to_params` into a parameter object whose attributes start as None. */
  function DumpToParams(h: Hash): ApiHash {
    if h.kind.Aggregate? then ApiHash(h.commit, h.distro, h.extended, h.aggregate, h.timestamp, Nil)
    else ApiHash(h.commit, h.distro, h.extended, Nil, h.timestamp, h.component)
  }

  function ApiSource(r: ApiHash): Source {
    Object(map["commit_hash" := r.commit, "distro_hash" := r.distro, "extended_hash" := r.extended,
               "aggregate_hash" := r.aggregate, "timestamp" := r.timestamp, "component" := r.component])
  }

  // ---- What a full hash identifies ----

  /** What a commit/distro hash puts into its full hash, in order. */
  function NameParts(h: Hash): seq<string>
    requires h.kind.CommitDistro?
  {
    [h.commit.s, Take(h.distro.s, 8)] + if h.extended.Nil? then [] else Halves(h)
  }

  /** The abbreviated halves of the extended hash. */
  function Halves(h: Hash): seq<string>
    requires !h.extended.Nil?
  {
    var parts := Split(h.extended.s, '_');
    [Take(parts[0], 8), Take(parts[1], 8)]
  }

  lemma FullHashSplits(h: Hash)
    requires h.kind.CommitDistro? && '_' !in h.commit.s && '_' !in h.distro.s
    ensures Split(FullHash(h), '_') == NameParts(h)
  {
    hide ParsesBase16, Split, Take;
    TakeHas(h.distro.s, 8);
    var commit, distro := h.commit.s, Take(h.distro.s, 8);
    if h.extended.Nil? {
      SplitAtUnderscore(commit, distro);
    } else {
      HalvesHaveNone(h);
      SplitFour(commit, distro, Halves(h)[0], Halves(h)[1]);
    }
  }

  lemma TakeHas(s: string, n: nat)
    ensures forall c | c in Take(s, n) :: c in s
  {
  }

  lemma HalvesHaveNone(h: Hash)
    requires !h.extended.Nil?
    ensures |Halves(h)| == 2 && '_' !in Halves(h)[0] && '_' !in Halves(h)[1]
  {
    hide ParsesBase16, Split, Take;
    PartsHaveNone(h.extended.s, '_');
    var parts := Split(h.extended.s, '_');
    assert parts[0] in parts && parts[1] in parts;
    TakeHas(parts[0], 8);
    TakeHas(parts[1], 8);
  }

  lemma SplitFour(a: string, b: string, c: string, d: string)
    requires '_' !in a && '_' !in b && '_' !in c && '_' !in d
    ensures Split(a + "_" + b + "_" + c + "_" + d, '_') == [a, b] + [c, d]
  {
    hide Split;
    SplitAtUnderscore(c, d);
    SplitFirst(b, c + "_" + d);
    SplitFirst(a, b + "_" + (c + "_" + d));
    assert a + "_" + b + "_" + c + "_" + d == a + "_" + (b + "_" + (c + "_" + d));
  }

  /** Two hashes of one class are taken for the same build: aggregates when their aggregate hashes are
      equal; commit/distro hashes when their commits are equal, the first eight characters of their
      distro hashes are, and both lack an extended hash, or the first eight characters of each half of
      their extended hashes are. */
  predicate SameBuild(a: Hash, b: Hash)
    requires a.kind == b.kind
  {
    if a.kind.Aggregate? then a.aggregate == b.aggregate
    else
      && a.commit == b.commit && Take(a.distro.s, 8) == Take(b.distro.s, 8)
      && (a.extended.Nil? <==> b.extended.Nil?)
      && (!a.extended.Nil? && !b.extended.Nil? ==> Halves(a) == Halves(b))
  }

  /** Commit and distro have no underscores. */
  predicate IsPlain(h: Hash) {
    h.kind.CommitDistro? ==> '_' !in h.commit.s && '_' !in h.distro.s
  }

  /** When two hashes of one class share a full hash. */
  lemma SharedFullHashIff(a: Hash, b: Hash)
    requires a.kind == b.kind && IsPlain(a) && IsPlain(b)
    ensures FullHash(a) == FullHash(b) <==> SameBuild(a, b)
  {
    if a.kind.CommitDistro? {
      FullHashSplits(a);
      FullHashSplits(b);
      if FullHash(a) == FullHash(b) {
        SamePartsSame(a, b);
      }
    }
  }

  lemma SamePartsSame(a: Hash, b: Hash)
    requires a.kind.CommitDistro? && b.kind.CommitDistro? && NameParts(a) == NameParts(b)
    ensures a.commit == b.commit && Take(a.distro.s, 8) == Take(b.distro.s, 8)
    ensures a.extended.Nil? <==> b.extended.Nil?
    ensures !a.extended.Nil? && !b.extended.Nil? ==> Halves(a) == Halves(b)
  {
    hide Halves;
    var x, y := NameParts(a), NameParts(b);
    assert x[0] == a.commit.s && y[0] == b.commit.s && x[1] == Take(a.distro.s, 8) && y[1] == Take(b.distro.s, 8);
    assert |x| == (if a.extended.Nil? then 2 else 2 + |Halves(a)|);
    assert |y| == (if b.extended.Nil? then 2 else 2 + |Halves(b)|);
    HalvesAreTwo(a);
    HalvesAreTwo(b);
    if !a.extended.Nil? && !b.extended.Nil? {
      assert x[2..] == Halves(a) && y[2..] == Halves(b);
    }
  }

  lemma HalvesAreTwo(h: Hash)
    ensures !h.extended.Nil? ==> |Halves(h)| == 2
  {
  }

  /** Two hashes that differ in the second half of the extended hash only, and are kept apart. */
  lemma ExtendedHashesAreKeptApart()
    ensures var a := HashValue(CommitDistro, Text("a"), Text("b"), Text("c_d"), Nil, Nil, Nil);
            var b := a.(extended := Text("c_e"));
            Valid(a) && Valid(b) && FullHash(a) == "a_b_c_d" && FullHash(b) == "a_b_c_e"
  {
    hide FullHash, Valid;
    NamedByParts("a", "b", "c", "d");
    NamedByParts("a", "b", "c", "e");
    assert "c" + "_" + "d" == "c_d" && "c" + "_" + "e" == "c_e";
    assert "a" + "_" + "b" + "_" + "c" + "_" + "d" == "a_b_c_d" && "a" + "_" + "b" + "_" + "c" + "_" + "e" == "a_b_c_e";
  }

  /** The full hash of a hash with short parts of hexadecimal digits. */
  lemma NamedByParts(commit: string, distro: string, left: string, right: string)
    requires Digit(commit) && Digit(distro) && Digit(left) && Digit(right)
    ensures var h := HashValue(CommitDistro, Text(commit), Text(distro), Text(left + "_" + right), Nil, Nil, Nil);
            Valid(h) && FullHash(h) == commit + "_" + distro + "_" + left + "_" + right
  {
    HexDigitsParse(commit);
    HexDigitsParse(distro);
    HexDigitsParse(left);
    HexDigitsParse(right);
    hide ParsesBase16, Split;
    SplitAtUnderscore(left, right);
    var extended := left + "_" + right;
    assert |extended| == 3 && |"None"| == 4;
  }

  /** A string of one hexadecimal digit. */
  predicate Digit(s: string) {
    |s| == 1 && IsHexDigit(s[0])
  }

  // ---- Round trips ----

  /** Dumping a hash to a dictionary and building a hash from that dictionary gives back the
      class, an equal hash (in both directions of `==`), and the same names and dump. */
  lemma RebuildFromDict(h: Hash)
    ensures var r := New(FromSource(Dict(DumpToDict(h))));
            && r.Returned?
            && r.value.kind == h.kind
            && Eq(h, r.value) && Eq(r.value, h)
            && FullHash(r.value) == FullHash(h)
            && DumpToDict(r.value) == DumpToDict(h)
  {
    var args := FromSource(Dict(DumpToDict(h)));
    assert CheckHash(h.commit) && CheckHash(h.distro);
    var c := h.(kind := CommitDistro, aggregate := Pick(args.source, "aggregate_hash", Nil),
                component := Pick(args.source, "component", Nil));
    assert SanityCheck(c).None?;
    assert Build(CommitDistro, args) == Returned(c);
    if h.kind.Aggregate? {
      assert Build(Aggregate, args) == Returned(h.(component := Nil));
    }
  }

  /** The same through the API: what is posted is what a later fetch builds. */
  lemma RebuildFromApi(h: Hash)
    ensures var r := New(FromSource(ApiSource(DumpToParams(h))));
            && r.Returned?
            && r.value.kind == h.kind
            && Eq(h, r.value) && Eq(r.value, h)
            && FullHash(r.value) == FullHash(h)
            && DumpToParams(r.value) == DumpToParams(h)
  {
    var p := DumpToParams(h);
    var args := FromSource(ApiSource(p));
    assert "commit_hash" in args.source.entries;
    var c := HashValue(CommitDistro, p.commit, p.distro, p.extended, p.aggregate, p.timestamp, p.component);
    assert SanityCheck(c).None?;
    assert Build(CommitDistro, args) == Returned(c);
    if h.kind.Aggregate? {
      assert Build(Aggregate, args) == Returned(c.(kind := Aggregate));
    }
  }

  /** Between classes `==` depends on which side is asked: it is symmetric exactly when the
      operands have one class, or differ elsewhere, or agree on both the aggregate and the component. */
  lemma EqSymmetry(a: Hash, b: Hash)
    ensures Eq(a, b) == Eq(b, a) <==>
            || a.kind == b.kind
            || (a.commit, a.distro, a.extended, a.timestamp) != (b.commit, b.distro, b.extended, b.timestamp)
            || (a.aggregate == b.aggregate) == (a.component == b.component)
  {
  }

  /** Equality looks at exactly these attributes of the receiver's class: changing one of them makes
      the hashes unequal, and changing the other one does not. */
  lemma EqualityCompares(a: Hash, b: Hash)
    ensures Eq(a, b) <==>
            a == b.(kind := a.kind,
                    aggregate := if a.kind.Aggregate? then b.aggregate else a.aggregate,
                    component := if a.kind.Aggregate? then a.component else b.component)
  {
  }

  /** Two hashes that either class would call equal have one full hash, when they have one class. */
  lemma EqualHashesShareNames(a: Hash, b: Hash)
    requires a.kind == b.kind && Eq(a, b)
    ensures FullHash(a) == FullHash(b) && DumpToParams(a) == DumpToParams(b)
  {
  }
}
