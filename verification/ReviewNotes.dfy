/** reviewbot/utils.py: adding a review under today's heading of a note. */
module ReviewNotes {
  import opened Outcomes

  // ---- Searching ----

  predicate OccursAt(s: string, p: string, i: nat) {
    i + |p| <= |s| && s[i..i + |p|] == p
  }

  lemma CharAt(s: string, p: string, i: nat, j: nat)
    requires OccursAt(s, p, i) && j < |p|
    ensures s[i + j] == p[j]
  {
    assert s[i..i + |p|][j] == s[i + j];
  }

  /** An occurrence within a part of the text is one in that part, and the other way round. */
  lemma InPart(s: string, p: string, i: nat, lo: nat, hi: nat)
    requires lo <= i && i + |p| <= hi <= |s|
    ensures OccursAt(s, p, i) <==> OccursAt(s[lo..hi], p, i - lo)
  {
    var a, b := s[i..i + |p|], s[lo..hi][i - lo..i - lo + |p|];
    forall j | 0 <= j < |p| ensures a[j] == b[j] {
      assert a[j] == s[i + j] == s[lo..hi][i - lo + j];
    }
    assert a == b;
  }

  /** `s.find(p)`. */
  function Find(s: string, p: string): Option<nat> {
    if |s| < |p| then None
    else if s[..|p|] == p then Some(0)
    else if s == "" then None
    else match Find(s[1..], p) case None => None case Some(i) => Some(i + 1)
  }

  lemma {:induction false} FindIsFirst(s: string, p: string)
    ensures match Find(s, p)
            case Some(k) => OccursAt(s, p, k) && forall i: nat | i < k :: !OccursAt(s, p, i)
            case None => forall i: nat :: !OccursAt(s, p, i)
    decreases |s|
  {
    if |s| < |p| {
    } else if s[..|p|] == p {
      assert OccursAt(s, p, 0);
    } else if s == "" {
    } else {
      FindIsFirst(s[1..], p);
      assert s[1..] == s[1..|s|] && s[0..|p|] == s[..|p|];
      forall i: nat | OccursAt(s, p, i) ensures i > 0 && OccursAt(s[1..], p, i - 1) {
        if i > 0 {
          InPart(s, p, i, 1, |s|);
        }
      }
      match Find(s[1..], p)
      case None =>
      case Some(k) => InPart(s, p, k + 1, 1, |s|);
    }
  }

  /** `s.split("\n## ")[-1]`: what follows the last heading mark. */
  function LastSection(s: string): string {
    match Find(s, "\n## ")
    case None => s
    case Some(k) => FindIsFirst(s, "\n## "); LastSection(s[k + 4..])
  }

  // ---- Where a new heading goes ----

  /** The end of a line starting at i with "tags: `" and ending with a backquote. */
  function TagsLineEnd(s: string, i: nat): Option<nat>
    requires i <= |s|
  {
    if !OccursAt(s, "tags: `", i) then None
    else
      NewlineEnds(s[i + 7..]);
      match Find(s[i + 7..], "\n")
      case None => None
      case Some(n) => if n > 0 && s[i + 7..][n - 1] == '`' then Some(i + 7 + n + 1) else None
  }

  /** `re.search("tags: `.*`\n", s)`: the end of the leftmost match. */
  function TagsEnd(s: string, i: nat): Option<nat>
    requires i <= |s|
    decreases |s| - i
  {
    if TagsLineEnd(s, i).Some? then TagsLineEnd(s, i)
    else if i == |s| then None
    else TagsEnd(s, i + 1)
  }

  /** `re.search("^#[ \t]+.*\n", s)`: the end of a title on the first line. */
  function TitleEnd(s: string): Option<nat> {
    if |s| >= 2 && s[0] == '#' && (s[1] == ' ' || s[1] == '\t') then
      match Find(s, "\n") case None => None case Some(n) => Some(n + 1)
    else None
  }

  /** A part of the text that the pattern for tags matches. */
  predicate IsTags(s: string, i: nat, e: nat) {
    && OccursAt(s, "tags: `", i) && i + 8 < e <= |s|
    && s[e - 2] == '`' && s[e - 1] == '\n' && '\n' !in s[i + 7..e - 1]
  }

  lemma TagsLineMatches(s: string, i: nat)
    requires i <= |s|
    ensures match TagsLineEnd(s, i)
            case Some(e) => IsTags(s, i, e)
            case None => forall e: nat :: !IsTags(s, i, e)
  {
    if OccursAt(s, "tags: `", i) {
      var t := s[i + 7..];
      NewlineEnds(t);
      FirstNewline(t);
      if TagsLineEnd(s, i).Some? {
        assert t[..Find(t, "\n").value] == s[i + 7..TagsLineEnd(s, i).value - 1];
      }
      forall e: nat | IsTags(s, i, e) ensures TagsLineEnd(s, i).Some? {
        assert t[e - 8 - i] == '\n' && t[..e - 8 - i] == s[i + 7..e - 1];
        assert t[e - 9 - i] == s[e - 2];
      }
    }
  }

  lemma FirstNewline(t: string)
    ensures match Find(t, "\n")
            case None => '\n' !in t
            case Some(n) => n < |t| && t[n] == '\n' && '\n' !in t[..n]
  {
    hide Find;
    FindIsFirst(t, "\n");
    NewlineEnds(t);
    forall k | 0 <= k < |t| && t[k] == '\n' ensures OccursAt(t, "\n", k) {
      assert t[k..k + 1] == "\n";
    }
  }

  ghost predicate FirstTags(s: string, from: nat, i: nat, e: nat) {
    from <= i && IsTags(s, i, e) && forall j: nat, e': nat | from <= j < i :: !IsTags(s, j, e')
  }

  ghost predicate NoTags(s: string, from: nat) {
    forall j: nat, e: nat | from <= j :: !IsTags(s, j, e)
  }

  /** The search for tags finds the leftmost match, if there is one. */
  lemma {:induction false} TagsEndIsLeftmost(s: string, i: nat) returns (j: nat)
    requires i <= |s|
    ensures match TagsEnd(s, i) case Some(e) => FirstTags(s, i, j, e) case None => NoTags(s, i)
    decreases |s| - i
  {
    hide TagsLineEnd;
    j := i;
    TagsLineMatches(s, i);
    if TagsLineEnd(s, i).None? && i < |s| {
      j := TagsEndIsLeftmost(s, i + 1);
      TagsFromNext(s, i, j);
    }
  }

  lemma TagsFromNext(s: string, i: nat, j: nat)
    requires forall e: nat :: !IsTags(s, i, e)
    ensures NoTags(s, i + 1) ==> NoTags(s, i)
    ensures forall e: nat :: FirstTags(s, i + 1, j, e) ==> FirstTags(s, i, j, e)
  {
    hide IsTags;
  }

  /** The title is the first line when that is a hash mark, a blank and anything. */
  predicate IsTitle(s: string, e: nat) {
    3 <= e <= |s| && s[0] == '#' && (s[1] == ' ' || s[1] == '\t') && s[e - 1] == '\n' && '\n' !in s[..e - 1]
  }

  lemma TitleEndIs(s: string)
    ensures match TitleEnd(s) case Some(e) => IsTitle(s, e) case None => forall e: nat :: !IsTitle(s, e)
  {
    FirstNewline(s);
    match Find(s, "\n")
    case None =>
    case Some(n) =>
      NotInPrefix(s, '\n', n);
      forall e: nat | IsTitle(s, e) ensures e == n + 1 {
        NotInPrefix(s, '\n', e - 1);
      }
  }

  /** Where a new heading goes: right after the first tags line, or without one after the title,
      or without either at the start. */
  lemma DateIndexIs(s: string)
    ensures var n := DateIndex(s);
            || (exists j: nat :: FirstTags(s, 0, j, n))
            || (IsTitle(s, n) && NoTags(s, 0))
            || (n == 0 && (forall e: nat :: !IsTitle(s, e)) && NoTags(s, 0))
  {
    var j := TagsEndIsLeftmost(s, 0);
    TitleEndIs(s);
  }

  function DateIndex(s: string): nat {
    match TagsEnd(s, 0)
    case Some(n) => n
    case None => match TitleEnd(s) case Some(n) => n case None => 0
  }

  lemma NewlineEnds(s: string)
    ensures match Find(s, "\n") case None => true case Some(n) => n < |s| && s[n] == '\n'
  {
    FindIsFirst(s, "\n");
    match Find(s, "\n")
    case None =>
    case Some(n) => assert s[n..n + 1][0] == '\n';
  }

  lemma {:induction false} TagsEndIsLineEnd(s: string, i: nat)
    requires i <= |s|
    ensures match TagsEnd(s, i) case None => true case Some(n) => 0 < n <= |s| && s[n - 1] == '\n'
    decreases |s| - i
  {
    if TagsLineEnd(s, i).Some? {
      NewlineEnds(s[i + 7..]);
    } else if i < |s| {
      TagsEndIsLineEnd(s, i + 1);
    }
  }

  /** A new heading goes to the start of the note or of a line. */
  lemma DateIndexIsLineStart(s: string)
    ensures DateIndex(s) <= |s| && (DateIndex(s) > 0 ==> s[DateIndex(s) - 1] == '\n')
  {
    TagsEndIsLineEnd(s, 0);
    NewlineEnds(s);
  }

  // ---- Adding a review ----

  function Heading(date: string): string {
    "## " + date + "\n"
  }

  /** The review is there, and the section before it has today's date. */
  predicate IsPresent(review: string, content: string, date: string) {
    match Find(content, review)
    case None => false
    case Some(k) => k <= |content| && Find(LastSection(content[..k]), date + "\n").Some?
  }

  /** Where the new text goes, and what it is. */
  function Insertion(review: string, content: string, date: string): (nat, string) {
    match Find(content, Heading(date))
    case Some(i) => (i + |Heading(date)|, "\n* " + review + "\n")
    case None => (DateIndex(content), "\n" + Heading(date) + "\n* " + review + "\n")
  }

  lemma InsertionIsLineStart(review: string, content: string, date: string)
    ensures var p := Insertion(review, content, date).0;
            p <= |content| && (p > 0 ==> content[p - 1] == '\n')
  {
    FindIsFirst(content, Heading(date));
    DateIndexIsLineStart(content);
    match Find(content, Heading(date))
    case None =>
    case Some(i) =>
      var h := Heading(date);
      assert content[i..i + |h|][|h| - 1] == h[|h| - 1] == '\n';
  }

  /** `add_new_review`; an empty review ends in the ValueError of splitting by it. */
  function AddNewReview(review: string, content: string, date: string): (r: Outcome<string>)
    ensures r.Returned? <==> review != ""
  {
    if review == "" then Raised(ValueError)
    else if IsPresent(review, content, date) then Returned(content)
    else
      var (p, inserted) := Insertion(review, content, date);
      InsertionIsLineStart(review, content, date);
      Returned(content[..p] + inserted + content[p..])
  }

  /** It only ever inserts: taking the inserted part out gives back the note, and it carries
      the review. */
  lemma OnlyInserts(review: string, content: string, date: string) returns (p: nat, inserted: string)
    requires review != ""
    ensures var r := AddNewReview(review, content, date);
            && r.Returned? && p <= |content|
            && r.value == content[..p] + inserted + content[p..]
            && r.value[..p] + r.value[p + |inserted|..] == content
            && (inserted == "" <==> IsPresent(review, content, date))
            && (inserted != "" ==> exists k :: OccursAt(inserted, review, k))
  {
    if IsPresent(review, content, date) {
      p, inserted := 0, "";
      assert content[..0] + "" + content[0..] == content;
    } else {
      InsertionIsLineStart(review, content, date);
      p, inserted := Insertion(review, content, date).0, Insertion(review, content, date).1;
      var k := |inserted| - 1 - |review|;
      assert inserted[k..k + |review|] == review;
      assert OccursAt(inserted, review, k);
      var r := content[..p] + inserted + content[p..];
      assert r[..p] == content[..p] && r[p + |inserted|..] == content[p..];
    }
  }

  /** A review that was added stands as a bullet right under the first heading of its day. */
  lemma UnderTodaysHeading(review: string, content: string, date: string) returns (k: nat)
    requires review != "" && !IsPresent(review, content, date)
    ensures var note := AddNewReview(review, content, date).value;
            && OccursAt(note, Heading(date) + "\n* " + review + "\n", k)
            && match Find(content, Heading(date))
               case Some(i) => k == i
               case None => k == DateIndex(content) + 1
  {
    hide Find, DateIndex, IsPresent, Heading, OccursAt;
    InsertionIsLineStart(review, content, date);
    var (p, inserted) := Insertion(review, content, date);
    var entry := Heading(date) + "\n* " + review + "\n";
    match Find(content, Heading(date))
    case Some(i) =>
      k := i;
      HeadingEnds(content, date, i);
      assert content[..p] + inserted + content[p..] == content[..i] + entry + content[p..];
      Stands(content[..i], entry, content[p..]);
    case None =>
      k := p + 1;
      assert content[..p] + inserted + content[p..] == (content[..p] + "\n") + entry + content[p..];
      Stands(content[..p] + "\n", entry, content[p..]);
  }

  lemma HeadingEnds(content: string, date: string, i: nat)
    requires Find(content, Heading(date)) == Some(i)
    ensures i + |Heading(date)| <= |content| && content[..i + |Heading(date)|] == content[..i] + Heading(date)
  {
    hide Find, Heading;
    FindIsFirst(content, Heading(date));
    var e := i + |Heading(date)|;
    assert content[..e] == content[..i] + content[i..e];
  }

  lemma Stands(before: string, part: string, after: string)
    ensures OccursAt(before + part + after, part, |before|)
  {
    assert (before + part + after)[|before|..|before| + |part|] == part;
  }

  // ---- Adding the same review twice on one day ----

  /** The part of the new note before the review's bullet. */
  function BeforeBullet(content: string, date: string): string {
    InsertionIsLineStart("", content, date);
    var p := Insertion("", content, date).0;
    if Find(content, Heading(date)).Some? then content[..p] else content[..p] + "\n" + Heading(date)
  }

  /** The new note, when the review was not present today. */
  lemma NewNote(review: string, content: string, date: string)
    requires review != "" && !IsPresent(review, content, date)
    ensures var p := Insertion(review, content, date).0;
            && p <= |content| && (p > 0 ==> content[p - 1] == '\n')
            && BeforeBullet(content, date) ==
               (if Find(content, Heading(date)).Some? then content[..p] else content[..p] + "\n" + Heading(date))
            && AddNewReview(review, content, date) ==
               Returned(BeforeBullet(content, date) + "\n* " + review + "\n" + content[p..])
  {
    hide Find, DateIndex, LastSection, IsPresent, Heading;
    InsertionIsLineStart(review, content, date);
    var p := Insertion(review, content, date).0;
    UnderOldHeading(content[..p], review, content[p..]);
    UnderNewHeading(content[..p], Heading(date), review, content[p..]);
  }

  lemma UnderOldHeading(start: string, review: string, rest: string)
    ensures start + ("\n* " + review + "\n") + rest == start + "\n* " + review + "\n" + rest
  {
  }

  lemma UnderNewHeading(start: string, h: string, review: string, rest: string)
    ensures start + ("\n" + h + "\n* " + review + "\n") + rest == start + "\n" + h + "\n* " + review + "\n" + rest
  {
  }

  /** The new note begins as the old one, and has the review after its bullet mark. */
  lemma BulletStands(review: string, content: string, date: string)
    requires review != "" && !IsPresent(review, content, date)
    ensures var note := AddNewReview(review, content, date).value;
            var before := BeforeBullet(content, date);
            var p := Insertion(review, content, date).0;
            && |before| + 3 <= |note| && p <= |before| && p <= |content|
            && OccursAt(note, review, |before| + 3) && note[..p] == content[..p]
            && note[..|before| + 3] == before + "\n* "
  {
    hide AddNewReview, Find, IsPresent, DateIndex, OccursAt;
    NewNote(review, content, date);
    var before, p := BeforeBullet(content, date), Insertion(review, content, date).0;
    Recut(before + "\n* ", review, content[p..]);
    Stands(before + "\n* ", review, "\n" + content[p..]);
    BeginsWith(before, content[..p], review, content, p);
  }

  lemma Recut(start: string, review: string, rest: string)
    ensures start + review + "\n" + rest == start + review + ("\n" + rest)
  {
  }

  lemma BeginsWith(before: string, start: string, review: string, content: string, p: nat)
    requires p <= |content| && start == content[..p] && start <= before
    ensures var note := before + "\n* " + review + "\n" + content[p..];
            |before| + 3 <= |note| && note[..p] == content[..p] && note[..|before| + 3] == before + "\n* "
  {
  }

  /** Text that no heading mark reaches into or stands in is added to the last section. */
  lemma {:induction false} LastSectionAppend(u: string, v: string)
    requires forall k: nat | OccursAt(u + v, "\n## ", k) :: k + 4 <= |u|
    ensures LastSection(u + v) == LastSection(u) + v
    decreases |u|
  {
    hide Find;
    var s := u + v;
    FindIsFirst(s, "\n## ");
    FindIsFirst(u, "\n## ");
    assert s[0..|u|] == u;
    match Find(s, "\n## ")
    case None =>
      forall k: nat ensures !OccursAt(u, "\n## ", k) {
        if k + 4 <= |u| {
          InPart(s, "\n## ", k, 0, |u|);
        }
      }
    case Some(k) =>
      InPart(s, "\n## ", k, 0, |u|);
      if k' :| Find(u, "\n## ") == Some(k') {
        InPart(s, "\n## ", k', 0, |u|);
        assert k' == k;
      }
      var rest := u[k + 4..];
      assert s[k + 4..] == rest + v && s[k + 4..|s|] == rest + v;
      forall j: nat | OccursAt(rest + v, "\n## ", j) ensures j + 4 <= |rest| {
        InPart(s, "\n## ", j + k + 4, k + 4, |s|);
      }
      LastSectionAppend(rest, v);
  }

  /** After today's heading, up to and into the bullet mark, the last section has the date. */
  lemma DateInLastSection(y: string, date: string, t: string)
    requires '\n' !in date && (t == "" || t == "\n" || t == "\n*" || t == "\n* ")
    ensures Find(LastSection(y + Heading(date) + t), date + "\n").Some?
  {
    hide LastSection, Find;
    var u, v := y + "## ", date + "\n" + t;
    var s := y + Heading(date) + t;
    assert s == u + v;
    forall k: nat | OccursAt(u + v, "\n## ", k) ensures k + 4 <= |u| {
      CharAt(s, "\n## ", k, 0);
      CharAt(s, "\n## ", k, 1);
    }
    LastSectionAppend(u, v);
    var last := LastSection(s);
    var k := |last| - |v|;
    assert last[k..k + |date| + 1] == last[k..][..|date| + 1] == date + "\n";
    assert OccursAt(last, date + "\n", k);
    FindIsFirst(last, date + "\n");
  }

  /** A text without line breaks occurs within one line: not across a break. */
  lemma WithinLine(s: string, p: string, i: nat, b: nat)
    requires OccursAt(s, p, i) && '\n' !in p && b < |s| && s[b] == '\n'
    ensures i + |p| <= b || b < i
  {
    forall c | i <= c < i + |p| ensures s[c] != '\n' {
      CharAt(s, p, i, c - i);
    }
  }

  /** An occurrence that starts before a line break that ends a part without occurrences does
      not exist; so it starts after it. */
  lemma AfterPart(s: string, part: string, p: string, i: nat)
    requires OccursAt(s, p, i) && p != "" && '\n' !in p
    requires |part| <= |s| && s[..|part|] == part && (part != "" ==> part[|part| - 1] == '\n')
    requires forall k: nat :: !OccursAt(part, p, k)
    ensures i >= |part|
  {
    if part != "" {
      WithinLine(s, p, i, |part| - 1);
      if i + |p| <= |part| {
        assert s[0..|part|] == part;
        InPart(s, p, i, 0, |part|);
      }
    }
  }

  /** Where a one-line review that did not stand before the place of insertion is first found in
      the new note: at or after the bullet mark, or else inside the heading just written. */
  lemma FirstOccurrence(review: string, content: string, date: string) returns (q: nat)
    requires review != "" && '\n' !in review && '\n' !in date
    requires !IsPresent(review, content, date) && !StandsEarlier(review, content, date)
    ensures var note := AddNewReview(review, content, date).value;
            var before := BeforeBullet(content, date);
            && Find(note, review) == Some(q) && q <= |before| + 3
            && if Find(content, Heading(date)).Some? || Find("## " + date, review).None? then q >= |before|
               else q == Insertion(review, content, date).0 + 1 + Find("## " + date, review).value
  {
    hide AddNewReview, BeforeBullet, Insertion, Find, IsPresent, Heading, OccursAt;
    NewNote(review, content, date);
    BulletStands(review, content, date);
    var note := AddNewReview(review, content, date).value;
    var before := BeforeBullet(content, date);
    var p := Insertion(review, content, date).0;
    FindIsFirst(content[..p], review);
    FindIsFirst(note, review);
    q := Find(note, review).value;
    AfterPart(note, content[..p], review, q);
    if Find(content, Heading(date)).None? {
      assert note == before + note[|before|..] by {
        assert note[..|before|] == note[..|before| + 3][..|before|];
      }
      InNewHeading(review, note, content[..p], date, note[|before|..], q);
    }
  }

  /** With a new heading written after `start`, an occurrence after it is in the heading's line,
      which has it where that line first has it, or past the heading. */
  lemma InNewHeading(review: string, note: string, start: string, date: string, rest: string, q: nat)
    requires review != "" && '\n' !in review
    requires note == start + "\n" + Heading(date) + rest
    requires Find(note, review) == Some(q) && q >= |start|
    ensures if Find("## " + date, review).None? then q >= |start + "\n" + Heading(date)|
            else q == |start| + 1 + Find("## " + date, review).value
  {
    var line := "## " + date;
    var a := |start| + 1;
    var e := a + |line|;
    hide Find, Heading, OccursAt;
    FindIsFirst(note, review);
    FindIsFirst(line, review);
    HeadingLine(start, date, rest);
    WithinLine(note, review, q, a - 1);
    WithinLine(note, review, q, e);
    if q + |review| <= e {
      InPart(note, review, q, a, e);
    }
    if Find(line, review).Some? {
      var j := Find(line, review).value;
      InPart(note, review, a + j, a, e);
    }
  }

  lemma HeadingLine(start: string, date: string, rest: string)
    ensures var note := start + "\n" + Heading(date) + rest;
            var a, e := |start| + 1, |start| + 1 + |"## " + date|;
            && e < |note| && |start + "\n" + Heading(date)| == e + 1
            && note[a - 1] == '\n' && note[e] == '\n' && note[a..e] == "## " + date
  {
  }

  /** The review stands before the place where it is to be inserted. */
  predicate StandsEarlier(review: string, content: string, date: string) {
    InsertionIsLineStart(review, content, date);
    Find(content[..Insertion(review, content, date).0], review).Some?
  }

  /** The review's text is first found in the line of the heading that the first call has to
      write: inside the date, or reaching into the mark before it while no date line stands in the
      section before that place. */
  predicate ClashesWithHeading(review: string, content: string, date: string) {
    DateIndexIsLineStart(content);
    && Find(content, Heading(date)).None?
    && match Find("## " + date, review)
       case None => false
       case Some(j) => j >= 3 || Find(LastSection(content[..DateIndex(content)]), date + "\n").None?
  }

  /** Adding a one-line review to any note, and adding it again the same day: the second call
      returns its input unchanged if and only if the review was present today already, or neither
      stands before the place of insertion nor clashes with the date heading the first call writes.
      The three cases of where that heading goes are all covered. */
  lemma SecondAddIsNoOpIff(review: string, content: string, date: string)
    requires review != "" && '\n' !in review && '\n' !in date && date != ""
    ensures var note := AddNewReview(review, content, date).value;
            AddNewReview(review, note, date) == Returned(note) <==>
            || IsPresent(review, content, date)
            || (!StandsEarlier(review, content, date) && !ClashesWithHeading(review, content, date))
  {
    hide AddNewReview, BeforeBullet, LastSection, Find, IsPresent, StandsEarlier, ClashesWithHeading, Insertion,
        DateIndex;
    var note := AddNewReview(review, content, date).value;
    InsertingLengthens(review, content, date);
    InsertingLengthens(review, note, date);
    if !IsPresent(review, content, date) {
      if StandsEarlier(review, content, date) {
        EarlierIsFoundAgain(review, content, date);
      } else {
        var q := FirstOccurrence(review, content, date);
        if Find(content, Heading(date)).Some? || Find("## " + date, review).None? {
          AfterHeadingIsPresent(review, content, date, q);
        } else {
          InHeadingIsPresentIff(review, content, date, q);
        }
      }
    }
  }

  /** A review before the place of insertion is what the second call finds, as the first did. */
  lemma EarlierIsFoundAgain(review: string, content: string, date: string)
    requires review != "" && !IsPresent(review, content, date) && StandsEarlier(review, content, date)
    ensures !IsPresent(review, AddNewReview(review, content, date).value, date)
  {
    hide Find, Insertion, BeforeBullet, LastSection, AddNewReview;
    NewNote(review, content, date);
    var note, p := AddNewReview(review, content, date).value, Insertion(review, content, date).0;
    assert note[..p] == content[..p];
    SameFirst(content, content[..p], review);
    SameFirst(note, content[..p], review);
    FindIsFirst(content[..p], review);
    var k := Find(content[..p], review).value;
    assert note[..k] == note[..p][..k] == content[..p][..k] == content[..k];
  }

  /** What is found in the beginning of a text is found first in all of it. */
  lemma SameFirst(s: string, start: string, p: string)
    requires |start| <= |s| && s[..|start|] == start && Find(start, p).Some?
    ensures Find(s, p) == Find(start, p)
  {
    hide Find;
    FindIsFirst(start, p);
    FindIsFirst(s, p);
    var k := Find(start, p).value;
    assert s[0..|start|] == start;
    InPart(s, p, k, 0, |start|);
    var k' := Find(s, p).value;
    InPart(s, p, k', 0, |start|);
  }

  lemma AfterHeadingIsPresent(review: string, content: string, date: string, q: nat)
    requires review != "" && '\n' !in date && !IsPresent(review, content, date)
    requires var note := AddNewReview(review, content, date).value;
             var before := BeforeBullet(content, date);
             Find(note, review) == Some(q) && |before| <= q <= |before| + 3
    requires Find(content, Heading(date)).Some? || Find("## " + date, review).None?
    ensures IsPresent(review, AddNewReview(review, content, date).value, date)
    ensures !ClashesWithHeading(review, content, date)
  {
    hide AddNewReview, BeforeBullet, LastSection, Find, IsPresent, Insertion, DateIndex;
    NewNote(review, content, date);
    var note, before := AddNewReview(review, content, date).value, BeforeBullet(content, date);
    var t := "\n* "[..q - |before|];
    assert note[..q] == before + t;
    FoundAfterHeading(review, content, date, note, q, t);
  }

  /** Found inside the new heading, the review is present only when its text reaches into the mark
      and a date line stands before. */
  lemma InHeadingIsPresentIff(review: string, content: string, date: string, q: nat)
    requires review != "" && '\n' !in date && date != "" && !IsPresent(review, content, date)
    requires Find(content, Heading(date)).None? && Find("## " + date, review).Some?
    requires Find(AddNewReview(review, content, date).value, review) == Some(q)
    requires q == Insertion(review, content, date).0 + 1 + Find("## " + date, review).value
    ensures IsPresent(review, AddNewReview(review, content, date).value, date) <==>
        !ClashesWithHeading(review, content, date)
  {
    hide AddNewReview, BeforeBullet, Insertion, LastSection, Find, DateIndex, OccursAt, Heading;
    var note, j := AddNewReview(review, content, date).value, Find("## " + date, review).value;
    NoteBefore(review, content, date, j);
    var y := content[..DateIndex(content)];
    if j >= 3 {
      assert note[..q] == y + "\n## " + date[..j - 3];
      LastIs(y, date[..j - 3]);
      FindIsFirst(LastSection(note[..q]), date + "\n");
      LongerNotFound(date[..j - 3], date + "\n");
    } else {
      assert note[..q] == y + ("\n" + "##"[..j]);
      DateLineBefore(y, date, "##"[..j]);
    }
  }

  lemma LongerNotFound(s: string, p: string)
    requires |s| < |p|
    ensures forall k: nat :: !OccursAt(s, p, k)
  {
  }

  /** The new note up to a place in its new heading. */
  lemma NoteBefore(review: string, content: string, date: string, j: nat)
    requires review != "" && '\n' !in date && !IsPresent(review, content, date)
    requires Find(content, Heading(date)).None? && Find("## " + date, review) == Some(j)
    ensures var note, p := AddNewReview(review, content, date).value, DateIndex(content);
            && j <= 3 + |date| && p <= |content| && (p > 0 ==> content[p - 1] == '\n')
            && p == Insertion(review, content, date).0 && p + 1 + j <= |note|
            && note[..p + 1 + j] == content[..p] + "\n" + ("## " + date)[..j]
            && (j >= 3 ==> note[..p + 1 + j] == content[..p] + "\n## " + date[..j - 3])
            && (j < 3 ==> note[..p + 1 + j] == content[..p] + ("\n" + "##"[..j]))
  {
    hide AddNewReview, LastSection, Find, DateIndex, IsPresent;
    NewNote(review, content, date);
    FindIsFirst("## " + date, review);
    var note, p := AddNewReview(review, content, date).value, Insertion(review, content, date).0;
    HeadingPart(note, content[..p], date, note[p + 1 + |Heading(date)|..], j);
  }

  lemma HeadingPart(note: string, start: string, date: string, rest: string, j: nat)
    requires note == start + "\n" + Heading(date) + rest && j <= 3 + |date|
    ensures var part := note[..|start| + 1 + j];
            && part == start + "\n" + ("## " + date)[..j]
            && (j >= 3 ==> part == start + "\n## " + date[..j - 3])
            && (j < 3 ==> part == start + ("\n" + "##"[..j]))
  {
  }

  /** A line that only begins a mark neither ends the last section nor makes a date line. */
  lemma DateLineBefore(y: string, date: string, t: string)
    requires (y == "" || y[|y| - 1] == '\n') && '\n' !in date && date != "" && (t == "" || t == "#" || t == "##")
    ensures Find(LastSection(y + ("\n" + t)), date + "\n").Some? <==> Find(LastSection(y), date + "\n").Some?
  {
    hide Find, LastSection;
    var v := "\n" + t;
    forall k: nat | OccursAt(y + v, "\n## ", k) ensures k + 4 <= |y| {
      CharAt(y + v, "\n## ", k, 3);
    }
    LastSectionAppend(y, v);
    LastSectionEnds(y);
    DateLineWithin(LastSection(y), date, t);
  }

  lemma DateLineWithin(last: string, date: string, t: string)
    requires (last == "" || last[|last| - 1] == '\n') && '\n' !in date && date != "" && '\n' !in t
    ensures Find(last + ("\n" + t), date + "\n").Some? <==> Find(last, date + "\n").Some?
  {
    hide Find;
    var s, d := last + ("\n" + t), date + "\n";
    FindIsFirst(s, d);
    FindIsFirst(last, d);
    assert s[0..|last|] == last;
    forall k: nat ensures OccursAt(s, d, k) <==> OccursAt(last, d, k) {
      if OccursAt(s, d, k) {
        DateLineEnds(last, date, t, k);
      }
      if k + |d| <= |last| {
        InPart(s, d, k, 0, |last|);
      }
    }
  }

  lemma DateLineEnds(last: string, date: string, t: string, k: nat)
    requires (last == "" || last[|last| - 1] == '\n') && '\n' !in date && date != "" && '\n' !in t
    requires OccursAt(last + ("\n" + t), date + "\n", k)
    ensures k + |date + "\n"| <= |last|
  {
    var s := last + ("\n" + t);
    CharAt(s, date + "\n", k, |date|);
    CharAt(s, date + "\n", k, |date| - 1);
    assert forall i | |last| < i < |s| :: s[i] == t[i - |last| - 1];
  }

  lemma {:induction false} LastSectionEnds(s: string)
    requires s == "" || s[|s| - 1] == '\n'
    ensures LastSection(s) == "" || LastSection(s)[|LastSection(s)| - 1] == '\n'
    decreases |s|
  {
    hide Find;
    FindIsFirst(s, "\n## ");
    match Find(s, "\n## ")
    case None =>
    case Some(k) => LastSectionEnds(s[k + 4..]);
  }

  lemma FoundAfterHeading(review: string, content: string, date: string, note: string, q: nat, t: string)
    requires '\n' !in date && (t == "" || t == "\n" || t == "\n*" || t == "\n* ")
    requires Find(note, review) == Some(q) && q <= |note| && note[..q] == BeforeBullet(content, date) + t
    ensures IsPresent(review, note, date)
  {
    var before := BeforeBullet(content, date);
    EndsWithHeading(content, date);
    var y := before[..|before| - |Heading(date)|];
    assert before == y + Heading(date);
    DateInLastSection(y, date, t);
  }

  /** The second call leaves the note alone exactly when it finds the review present. */
  lemma InsertingLengthens(review: string, note: string, date: string)
    requires review != ""
    ensures AddNewReview(review, note, date) == Returned(note) <==> IsPresent(review, note, date)
  {
    if !IsPresent(review, note, date) {
      InsertionIsLineStart(review, note, date);
      var (p', inserted) := Insertion(review, note, date);
      assert |note[..p'] + inserted + note[p'..]| > |note|;
    }
  }

  lemma EndsWithHeading(content: string, date: string)
    ensures var before := BeforeBullet(content, date);
            |before| >= |Heading(date)| && before[|before| - |Heading(date)|..] == Heading(date)
  {
    InsertionIsLineStart("", content, date);
    FindIsFirst(content, Heading(date));
    match Find(content, Heading(date))
    case None =>
    case Some(i) => assert content[..i + |Heading(date)|][i..] == content[i..i + |Heading(date)|];
  }

  /** A review that is not in the note, and whose text is no part of the date heading, is added once. */
  lemma OtherReviewsAreAddedOnce(review: string, content: string, date: string)
    requires review != "" && '\n' !in review && '\n' !in date && date != "" && Find(content, review).None?
    requires Find("## " + date, review).None? || Find(content, Heading(date)).Some?
    ensures var note := AddNewReview(review, content, date).value;
            AddNewReview(review, note, date) == Returned(note)
  {
    hide AddNewReview, Find, Insertion;
    SecondAddIsNoOpIff(review, content, date);
    InsertionIsLineStart(review, content, date);
    var p := Insertion(review, content, date).0;
    if Find(content[..p], review).Some? {
      SameFirst(content, content[..p], review);
    }
  }

  lemma {:induction false} LastSectionIsPart(s: string)
    ensures |LastSection(s)| <= |s|
    decreases |s|
  {
    hide Find;
    FindIsFirst(s, "\n## ");
    match Find(s, "\n## ")
    case None =>
    case Some(k) => LastSectionIsPart(s[k + 4..]);
  }

  /** The first word of a date is added again on every call, since the heading has it. */
  lemma DateWordIsAddedAgain()
    ensures !IsPresent("Mar", "", "Mar 05, 2024") && ClashesWithHeading("Mar", "", "Mar 05, 2024")
  {
    assert "Mar" + " 05, 2024" == "Mar 05, 2024";
    WordOfDate("Mar", " 05, 2024");
  }

  lemma WordOfDate(word: string, rest: string)
    requires word != "" && word[0] != '#' && word[0] != ' '
    ensures !IsPresent(word, "", word + rest) && ClashesWithHeading(word, "", word + rest)
  {
    hide DateIndex, LastSection, OccursAt;
    NotInShorter("", word);
    NotInShorter("", Heading(word + rest));
    hide Find;
    var line := "## " + (word + rest);
    assert ("## " + word) + rest == line;
    Stands("## ", word, rest);
    FindIsFirst(line, word);
    forall k: nat | k < 3 ensures !OccursAt(line, word, k) {
      OtherChar(line, word, k);
    }
  }

  lemma OtherChar(s: string, p: string, i: nat)
    requires i < |s| && p != "" && s[i] != p[0]
    ensures !OccursAt(s, p, i)
  {
    if i + |p| <= |s| {
      assert s[i..i + |p|][0] == s[i];
    }
  }

  lemma NotInShorter(s: string, p: string)
    requires |s| < |p|
    ensures Find(s, p).None?
  {
  }

  /** So is a review that stands in an older section above today's. */
  lemma OlderReviewIsAddedAgain()
    ensures var content := "## old\n* fix\n## Mar 05, 2024\n";
            !IsPresent("fix", content, "Mar 05, 2024") && StandsEarlier("fix", content, "Mar 05, 2024")
  {
    var content, date := "## old\n* fix\n## Mar 05, 2024\n", "Mar 05, 2024";
    hide Find, DateIndex, LastSection;
    assert content[9..12] == "fix";
    assert OccursAt(content, "fix", 9);
    FindIsFirst(content, "fix");
    var k := Find(content, "fix").value;
    LastSectionIsPart(content[..k]);
    FindIsFirst(LastSection(content[..k]), date + "\n");
    assert content[13..29] == Heading(date);
    FindIsFirst(content, Heading(date));
    assert OccursAt(content, Heading(date), 13);
    InsertionIsLineStart("fix", content, date);
    var p := Insertion("fix", content, date).0;
    InPart(content, "fix", 9, 0, p);
    assert content[0..p] == content[..p];
    FindIsFirst(content[..p], "fix");
  }

  /** A heading mark followed by text without marks: the last section is that text. */
  lemma {:induction false} LastIs(y: string, v: string)
    requires '\n' !in v
    ensures LastSection(y + "\n## " + v) == v
    decreases |y|
  {
    var s := y + "\n## " + v;
    FindIsFirst(s, "\n## ");
    assert s[|y|..|y| + 4] == "\n## ";
    assert OccursAt(s, "\n## ", |y|);
    var k := Find(s, "\n## ").value;
    if k == |y| {
      assert s[k + 4..] == v;
      FindIsFirst(v, "\n## ");
      if Find(v, "\n## ").Some? {
        CharAt(v, "\n## ", Find(v, "\n## ").value, 0);
      }
    } else {
      MarkEndsBefore(y, v, k);
      assert s[k + 4..] == y[k + 4..] + "\n## " + v;
      LastIs(y[k + 4..], v);
    }
  }

  lemma MarkEndsBefore(y: string, v: string, k: nat)
    requires OccursAt(y + "\n## " + v, "\n## ", k) && k < |y|
    ensures k + 4 <= |y|
  {
    var s := y + "\n## " + v;
    CharAt(s, "\n## ", k, 1);
    CharAt(s, "\n## ", k, 2);
    CharAt(s, "\n## ", k, 3);
    assert s[|y|] == '\n';
  }
}
