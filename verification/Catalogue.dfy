/** The question catalogue: a table of rows with marker rows for subjects and chapters, and
    the server's caches in front of it. */
module Catalogue {
  import opened JsonEscape

  const PLACEHOLDER: string := "placeholder"

  /** The primary key of a row. */
  datatype Key = Key(path: string, chapter: string, subject: string)

  type Table = map<Key, string>

  /** The table with the server's caches; a negative count is not known yet. open tells
      whether a transaction is open on the connection. */
  datatype State = State(
    table: Table,
    open: bool,
    subjects: set<string>,
    chapters: map<string, set<string>>,
    count: int)

  const EMPTY: State := State(map[], false, {}, map[], -1)

  // ---------- The database ----------

  predicate SubjectSeen(table: Table, subject: string)
  {
    exists k :: k in table && k.subject == subject
  }

  predicate ChapterSeen(table: Table, subject: string, chapter: string)
  {
    exists k :: k in table && k.subject == subject && k.chapter == chapter
  }

  /** An empty subject is stored under another name. */
  function Stored(subject: string): string
  {
    if subject == "" then "undefined" else subject
  }

  function SubjectMarker(subject: string): Key
  {
    Key(PLACEHOLDER, PLACEHOLDER, subject)
  }

  function ChapterMarker(subject: string, chapter: string): Key
  {
    Key(PLACEHOLDER, chapter, subject)
  }

  /** An insert is carried out if the database works and the key is new. */
  predicate Inserts(table: Table, key: Key, works: bool)
  {
    works && key !in table
  }

  /** SELECT DISTINCT subject, without the placeholder. */
  function Distinct(table: Table): set<string>
  {
    (set k | k in table :: k.subject) - {PLACEHOLDER}
  }

  // ---------- Requests ----------

  /** A request with the answers of the database: what its existence checks say, and
      whether it carries out the statement that changes or counts rows. */
  datatype Event =
    | AddSubject(subject: string, seen: bool, works: bool)
    | AddChapter(subject: string, chapter: string, seen: bool, seenChapter: bool, works: bool)
    | WriteQuestion(subject: string, chapter: string, id: string, content: string,
                    seen: bool, seenChapter: bool, works: bool)
    | DeleteQuestion(subject: string, chapter: string, id: string, works: bool)
    | GetSubjects(works: bool)

  /** An existence check may miss rows but never sees one that is not there. */
  predicate Sound(state: State, event: Event)
  {
    match event
    case AddSubject(s, seen, _) => seen ==> SubjectSeen(state.table, s)
    case AddChapter(s, c, seen, seenChapter, _) =>
      (seen ==> SubjectSeen(state.table, s)) && (seenChapter ==> ChapterSeen(state.table, s, c))
    case WriteQuestion(s, c, id, _, seen, seenChapter, _) =>
      (seen ==> Key(id, c, s) in state.table) && (seenChapter ==> ChapterSeen(state.table, s, c))
    case DeleteQuestion(_, _, _, _) => true
    case GetSubjects(_) => true
  }

  predicate CachedChapter(state: State, subject: string, chapter: string)
  {
    subject in state.chapters && chapter in state.chapters[subject]
  }

  function WithChapter(chapters: map<string, set<string>>, subject: string, chapter: string): map<string, set<string>>
  {
    chapters[subject := (if subject in chapters then chapters[subject] else {}) + {chapter}]
  }

  /** What a request does to table and caches. */
  function Change(state: State, event: Event): State
  {
    match event
    case AddSubject(s, seen, works) =>
      var key := SubjectMarker(Stored(s));
      if s in state.subjects || seen || !Inserts(state.table, key, works) then state
      else
        state.(table := state.table[key := PLACEHOLDER],
               subjects := state.subjects + {s},
               count := if state.count >= 0 then state.count + 1 else state.count)
    case AddChapter(s, c, seen, seenChapter, works) =>
      var key := ChapterMarker(Stored(s), c);
      if (s !in state.subjects && !seen) || CachedChapter(state, s, c) || seenChapter
         || !Inserts(state.table, key, works) then state
      else
        state.(table := state.table[key := PLACEHOLDER], chapters := WithChapter(state.chapters, s, c))
    case WriteQuestion(s, c, id, content, seen, seenChapter, works) =>
      var escaped := Form.Server.Escaped(content);
      if seen then
        if works && Key(id, c, s) in state.table then state.(table := state.table[Key(id, c, s) := escaped]) else state
      else
        var key := Key(id, c, Stored(s));
        if seenChapter && Inserts(state.table, key, works) then state.(table := state.table[key := escaped]) else state
    case DeleteQuestion(s, c, id, works) =>
      if works then state.(table := state.table - {Key(id, c, s)}) else state
    case GetSubjects(works) =>
      if state.count >= 0 then state
      else state.(count := if works then |Distinct(state.table)| else -1)
  }

  /** Whether a transaction is open after a request: reading begins one and leaves it open,
      and so does a change that fails; a change that succeeds ends it. */
  function OpenAfter(state: State, event: Event): bool
  {
    match event
    case AddSubject(s, seen, works) =>
      if s in state.subjects then state.open
      else seen || !Inserts(state.table, SubjectMarker(Stored(s)), works)
    case AddChapter(s, c, seen, seenChapter, works) =>
      if s in state.subjects && CachedChapter(state, s, c) then state.open
      else
        || (s !in state.subjects && !seen) || CachedChapter(state, s, c) || seenChapter
        || !Inserts(state.table, ChapterMarker(Stored(s), c), works)
    case WriteQuestion(s, c, id, content, seen, seenChapter, works) =>
      if seen then !works else !seenChapter || !Inserts(state.table, Key(id, c, Stored(s)), works)
    case DeleteQuestion(_, _, _, works) => state.open && !works
    case GetSubjects(_) => true
  }

  function Step(state: State, event: Event): State
  {
    Change(state, event).(open := OpenAfter(state, event))
  }

  function Run(state: State, events: seq<Event>): State
    decreases |events|
  {
    if events == [] then state else Run(Step(state, events[0]), events[1..])
  }

  /** The database's answers are sound all along a run. */
  predicate SoundRun(state: State, events: seq<Event>)
    decreases |events|
  {
    events == [] || (Sound(state, events[0]) && SoundRun(Step(state, events[0]), events[1..]))
  }

  // ---------- The invariant ----------

  predicate HasMarkers(table: Table, k: Key)
  {
    k.subject != "" && SubjectMarker(k.subject) in table && ChapterMarker(k.subject, k.chapter) in table
  }

  /** Every row's subject and chapter have their marker rows. */
  ghost predicate Marked(table: Table)
  {
    forall k {:trigger HasMarkers(table, k)} :: k in table ==> HasMarkers(table, k)
  }

  /** The caches hold only names the table has. */
  ghost predicate CachesHold(state: State)
  {
    && (forall s :: s in state.subjects ==> SubjectMarker(s) in state.table)
    && (forall s, c :: CachedChapter(state, s, c) ==> ChapterMarker(s, c) in state.table)
  }

  ghost predicate CountHolds(state: State)
  {
    state.count == -1 || state.count == |Distinct(state.table)|
  }

  ghost predicate Consistent(state: State)
  {
    Marked(state.table) && CachesHold(state) && CountHolds(state)
  }

  /** What breaks the invariant, in terms of the state before the request: a new marker for
      an empty subject or, once subjects have been counted, for the placeholder itself; and
      the deletion of a marker row that rows, caches or the counter still rely on. */
  predicate Harmful(state: State, event: Event)
  {
    match event
    case AddSubject(s, seen, works) =>
      && s !in state.subjects && !seen && Inserts(state.table, SubjectMarker(Stored(s)), works)
      && (s == "" || (s == PLACEHOLDER && state.count >= 0))
    case DeleteQuestion(s, c, id, works) =>
      works && id == PLACEHOLDER && Key(id, c, s) in state.table && Relied(state, s, c)
    case AddChapter(_, _, _, _, _) => false
    case WriteQuestion(_, _, _, _, _, _, _) => false
    case GetSubjects(_) => false
  }

  /** Something besides the marker itself needs the marker of a chapter, or of a subject. */
  predicate Relied(state: State, subject: string, chapter: string)
  {
    if chapter == PLACEHOLDER then
      || (exists k :: k in state.table && k.subject == subject && k != SubjectMarker(subject))
      || subject in state.subjects || CachedChapter(state, subject, PLACEHOLDER)
      || (subject != PLACEHOLDER && state.count >= 0)
    else
      || (exists k :: k in state.table && k.subject == subject && k.chapter == chapter
                      && k != ChapterMarker(subject, chapter))
      || CachedChapter(state, subject, chapter)
  }

  // ---------- One request ----------

  /** The subject of a table with marker rows is counted once, however many rows it has. */
  lemma DistinctSame(table: Table, key: Key, content: string)
    requires SubjectSeen(table, key.subject)
    ensures Distinct(table[key := content]) == Distinct(table)
  {
    var after := table[key := content];
    forall s ensures s in Distinct(after) <==> s in Distinct(table) {
      if s in Distinct(table) {
        var k :| k in table && k.subject == s;
        assert k in after;
      }
    }
  }

  lemma DistinctNew(table: Table, key: Key, content: string)
    requires !SubjectSeen(table, key.subject)
    ensures Distinct(table[key := content]) == Distinct(table) + ({key.subject} - {PLACEHOLDER})
    ensures key.subject !in Distinct(table)
  {
    var after := table[key := content];
    assert key in after;
    forall s ensures s in Distinct(after) <==> s in Distinct(table) + ({key.subject} - {PLACEHOLDER}) {
      if s in Distinct(table) {
        var k :| k in table && k.subject == s;
        assert k in after;
      }
    }
  }

  lemma DistinctDeleted(table: Table, key: Key)
    requires key in table
    ensures Distinct(table - {key}) ==
            if exists k :: k in table && k.subject == key.subject && k != key then Distinct(table)
            else Distinct(table) - {key.subject}
  {
    var after := table - {key};
    forall s
      ensures s in Distinct(after) <==>
              s in Distinct(table) && (s == key.subject ==> exists k :: k in after && k.subject == s)
    {
      if s in Distinct(table) && s != key.subject {
        var k :| k in table && k.subject == s;
        assert k in after;
      }
      if s in Distinct(after) {
        var k :| k in after && k.subject == s;
        assert k in table;
      }
    }
    if k :| k in table && k.subject == key.subject && k != key {
      assert k in after;
    }
  }

  /** A row whose markers are there, or which is its own marker, may be added. */
  lemma MarkedInsert(table: Table, key: Key, content: string)
    requires Marked(table) && key.subject != ""
    requires SubjectMarker(key.subject) in table || SubjectMarker(key.subject) == key
    requires ChapterMarker(key.subject, key.chapter) in table || ChapterMarker(key.subject, key.chapter) == key
    ensures Marked(table[key := content])
  {
    hide PLACEHOLDER;
    var after := table[key := content];
    forall k | k in after ensures HasMarkers(after, k) {
      assert k in table ==> HasMarkers(table, k);
    }
  }

  /** Caches stay right while no marker disappears and new entries have markers. */
  lemma CachesGrow(state: State, after: State)
    requires CachesHold(state)
    requires forall k: Key :: k in state.table && k.path == PLACEHOLDER ==> k in after.table
    requires forall s :: s in after.subjects ==> s in state.subjects || SubjectMarker(s) in after.table
    requires forall s, c :: CachedChapter(after, s, c) ==> CachedChapter(state, s, c) || ChapterMarker(s, c) in after.table
    ensures CachesHold(after)
  {
    hide PLACEHOLDER, CachedChapter;
  }

  lemma SeenHasMarkers(table: Table, s: string)
    requires Marked(table) && SubjectSeen(table, s)
    ensures s != "" && SubjectMarker(s) in table
  {
    var k :| k in table && k.subject == s;
    assert HasMarkers(table, k);
  }

  lemma AddSubjectKeeps(state: State, s: string, seen: bool, works: bool)
    requires Consistent(state) && Sound(state, AddSubject(s, seen, works))
    ensures var event := AddSubject(s, seen, works);
            Consistent(Change(state, event)) <==> !Harmful(state, event)
  {
    if s !in state.subjects && !seen && Inserts(state.table, SubjectMarker(Stored(s)), works) {
      SubjectAdded(state, s, Change(state, AddSubject(s, seen, works)));
    }
  }

  lemma SubjectAdded(state: State, s: string, after: State)
    requires Consistent(state) && s !in state.subjects && SubjectMarker(Stored(s)) !in state.table
    requires after == state.(table := state.table[SubjectMarker(Stored(s)) := PLACEHOLDER],
                            subjects := state.subjects + {s},
                            count := if state.count >= 0 then state.count + 1 else state.count)
    ensures Consistent(after) <==> !(s == "" || (s == PLACEHOLDER && state.count >= 0))
  {
    var key := SubjectMarker(Stored(s));
    if SubjectSeen(state.table, Stored(s)) {
      SeenHasMarkers(state.table, Stored(s));
    }
    DistinctNew(state.table, key, PLACEHOLDER);
    MarkedInsert(state.table, key, PLACEHOLDER);
    if s == "" {
      assert s in after.subjects && !HasMarkers(after.table, SubjectMarker(s));
    } else {
      assert forall s1, c1 :: CachedChapter(after, s1, c1) ==> CachedChapter(state, s1, c1);
      hide Marked, CachesHold, Distinct, PLACEHOLDER;
      CachesGrow(state, after);
    }
  }

  lemma AddChapterKeeps(state: State, event: Event)
    requires event.AddChapter? && Consistent(state) && Sound(state, event)
    ensures Consistent(Change(state, event)) <==> !Harmful(state, event)
  {
    var s, c := event.subject, event.chapter;
    if s in state.subjects || event.seen {
      SubjectHasMarker(state, s);
      ChapterAdded(state, s, c);
    }
  }

  lemma SubjectHasMarker(state: State, s: string)
    requires Consistent(state) && (s in state.subjects || SubjectSeen(state.table, s))
    ensures s != "" && SubjectMarker(s) in state.table && Stored(s) == s
  {
    hide PLACEHOLDER;
    assert s in state.subjects ==> SubjectMarker(s) in state.table && SubjectMarker(s).subject == s;
    SeenHasMarkers(state.table, s);
  }

  lemma ChapterAdded(state: State, s: string, c: string)
    requires Consistent(state) && s != "" && SubjectMarker(s) in state.table
    ensures Consistent(state.(table := state.table[ChapterMarker(s, c) := PLACEHOLDER],
                             chapters := WithChapter(state.chapters, s, c)))
  {
    var key := ChapterMarker(s, c);
    var after := state.(table := state.table[key := PLACEHOLDER], chapters := WithChapter(state.chapters, s, c));
    hide PLACEHOLDER;
    assert SubjectSeen(state.table, s);
    DistinctSame(state.table, key, PLACEHOLDER);
    MarkedInsert(state.table, key, PLACEHOLDER);
    forall s1, c1 | CachedChapter(after, s1, c1)
      ensures CachedChapter(state, s1, c1) || ChapterMarker(s1, c1) in after.table
    {
    }
    CachesGrow(state, after);
  }

  lemma WriteQuestionKeeps(state: State, event: Event)
    requires event.WriteQuestion? && Consistent(state) && Sound(state, event)
    ensures Consistent(Change(state, event)) <==> !Harmful(state, event)
  {
    var s, c, id := event.subject, event.chapter, event.id;
    var key := Key(id, c, s);
    if (event.seen && key in state.table) || (!event.seen && event.seenChapter) {
      assert ChapterSeen(state.table, s, c);
      ChapterHasMarkers(state, s, c);
      QuestionWritten(state, key, Form.Server.Escaped(event.content));
    }
  }

  lemma ChapterHasMarkers(state: State, s: string, c: string)
    requires Consistent(state) && ChapterSeen(state.table, s, c)
    ensures s != "" && Stored(s) == s && SubjectMarker(s) in state.table && ChapterMarker(s, c) in state.table
  {
    hide PLACEHOLDER;
    var k :| k in state.table && k.subject == s && k.chapter == c;
    assert HasMarkers(state.table, k);
  }

  lemma QuestionWritten(state: State, key: Key, content: string)
    requires Consistent(state) && key.subject != ""
    requires SubjectMarker(key.subject) in state.table && ChapterMarker(key.subject, key.chapter) in state.table
    ensures Consistent(state.(table := state.table[key := content]))
  {
    hide PLACEHOLDER;
    var after := state.(table := state.table[key := content]);
    assert SubjectSeen(state.table, key.subject);
    DistinctSame(state.table, key, content);
    MarkedInsert(state.table, key, content);
    SameCaches(state, after);
  }

  lemma SameCaches(state: State, after: State)
    requires CachesHold(state) && after.subjects == state.subjects && after.chapters == state.chapters
    requires forall k: Key :: k in state.table && k.path == PLACEHOLDER ==> k in after.table
    ensures CachesHold(after)
  {
    hide PLACEHOLDER;
    assert forall s, c :: CachedChapter(after, s, c) ==> CachedChapter(state, s, c);
    CachesGrow(state, after);
  }

  lemma DeleteQuestionKeeps(state: State, s: string, c: string, id: string, works: bool)
    requires Consistent(state)
    ensures var event := DeleteQuestion(s, c, id, works);
            Consistent(Change(state, event)) <==> !Harmful(state, event)
  {
    var event := DeleteQuestion(s, c, id, works);
    var key := Key(id, c, s);
    if !works || key !in state.table {
      assert state.table - {key} == state.table || !works;
    } else if id != PLACEHOLDER {
      QuestionDeleted(state, key);
    } else if Relied(state, s, c) {
      MarkerMissed(state, s, c);
    } else {
      MarkerDeleted(state, s, c);
    }
  }

  lemma QuestionDeleted(state: State, key: Key)
    requires Consistent(state) && key in state.table && key.path != PLACEHOLDER
    ensures Consistent(state.(table := state.table - {key}))
  {
    hide PLACEHOLDER;
    var after := state.(table := state.table - {key});
    assert HasMarkers(state.table, key);
    assert SubjectMarker(key.subject) in state.table && SubjectMarker(key.subject) != key;
    DistinctDeleted(state.table, key);
    forall k | k in after.table ensures HasMarkers(after.table, k) {
      assert HasMarkers(state.table, k);
    }
    SameCaches(state, after);
  }

  lemma MarkerDeleted(state: State, s: string, c: string)
    requires Consistent(state) && ChapterMarker(s, c) in state.table && !Relied(state, s, c)
    ensures Consistent(state.(table := state.table - {ChapterMarker(s, c)}))
  {
    var key := ChapterMarker(s, c);
    var after := state.(table := state.table - {key});
    MarkedStays(state, s, c);
    CachesStay(state, s, c);
    hide PLACEHOLDER, Marked, CachesHold, Distinct, Relied, CachedChapter;
    CountStays(state, s, c);
  }

  lemma MarkedStays(state: State, s: string, c: string)
    requires Marked(state.table) && ChapterMarker(s, c) in state.table && !Relied(state, s, c)
    ensures Marked(state.table - {ChapterMarker(s, c)})
  {
    hide PLACEHOLDER, CachedChapter;
    var after := state.table - {ChapterMarker(s, c)};
    forall k | k in after ensures HasMarkers(after, k) {
      assert HasMarkers(state.table, k);
    }
  }

  lemma CachesStay(state: State, s: string, c: string)
    requires CachesHold(state) && ChapterMarker(s, c) in state.table && !Relied(state, s, c)
    ensures CachesHold(state.(table := state.table - {ChapterMarker(s, c)}))
  {
    hide PLACEHOLDER;
    var after := state.(table := state.table - {ChapterMarker(s, c)});
    forall s1, c1 | CachedChapter(after, s1, c1) ensures ChapterMarker(s1, c1) in after.table {
      assert CachedChapter(state, s1, c1);
    }
  }

  lemma CountStays(state: State, s: string, c: string)
    requires Marked(state.table) && CountHolds(state) && ChapterMarker(s, c) in state.table && !Relied(state, s, c)
    ensures CountHolds(state.(table := state.table - {ChapterMarker(s, c)}))
  {
    var key := ChapterMarker(s, c);
    DistinctDeleted(state.table, key);
    assert HasMarkers(state.table, key);
    hide PLACEHOLDER, Distinct, Marked, CachedChapter;
    if c != PLACEHOLDER {
      assert SubjectMarker(s) in state.table && SubjectMarker(s) != key;
    } else if state.count >= 0 {
      assert s == PLACEHOLDER;
      NeverCounted(state.table);
    }
  }

  lemma NeverCounted(table: Table)
    ensures Distinct(table) - {PLACEHOLDER} == Distinct(table)
  {
  }

  lemma MarkerMissed(state: State, s: string, c: string)
    requires Consistent(state) && ChapterMarker(s, c) in state.table && Relied(state, s, c)
    ensures !Consistent(state.(table := state.table - {ChapterMarker(s, c)}))
  {
    hide PLACEHOLDER;
    var key := ChapterMarker(s, c);
    var after := state.(table := state.table - {key});
    if k :| k in state.table && k.subject == s && (c == PLACEHOLDER || k.chapter == c) && k != key {
      assert k in after.table && !HasMarkers(after.table, k);
    } else if c == PLACEHOLDER && s in state.subjects {
      assert s in after.subjects;
    } else if CachedChapter(state, s, c) {
      assert CachedChapter(after, s, c);
    } else {
      DistinctDeleted(state.table, key);
      assert s in Distinct(state.table);
    }
  }

  lemma GetSubjectsKeeps(state: State, event: Event)
    requires event.GetSubjects? && Consistent(state)
    ensures Consistent(Change(state, event)) <==> !Harmful(state, event)
  {
    SameCaches(state, Change(state, event));
    hide Marked, CachesHold, Distinct;
  }

  lemma ChangeKeeps(state: State, event: Event)
    requires Consistent(state) && Sound(state, event)
    ensures Consistent(Change(state, event)) <==> !Harmful(state, event)
  {
    hide *;
    match event
    case AddSubject(s, seen, works) => AddSubjectKeeps(state, s, seen, works);
    case AddChapter(_, _, _, _, _) => AddChapterKeeps(state, event);
    case WriteQuestion(_, _, _, _, _, _, _) => WriteQuestionKeeps(state, event);
    case DeleteQuestion(s, c, id, works) => DeleteQuestionKeeps(state, s, c, id, works);
    case GetSubjects(_) => GetSubjectsKeeps(state, event);
  }

  /** The transaction does not matter to the invariant. */
  lemma SameWhenOpen(state: State, open: bool)
    ensures Consistent(state.(open := open)) <==> Consistent(state)
  {
    hide Marked, PLACEHOLDER, Distinct;
    var other := state.(open := open);
    assert forall s, c :: CachedChapter(other, s, c) <==> CachedChapter(state, s, c);
    hide CachedChapter;
  }

  /** A request keeps the invariant exactly if it is not harmful. */
  lemma StepKeeps(state: State, event: Event)
    requires Consistent(state) && Sound(state, event)
    ensures Consistent(Step(state, event)) <==> !Harmful(state, event)
  {
    hide Consistent, Sound, Change, Harmful, OpenAfter;
    ChangeKeeps(state, event);
    SameWhenOpen(Change(state, event), OpenAfter(state, event));
  }

  // ---------- Whole runs ----------

  /** No subject without a name or with the reserved one, and no deletion at the reserved path. */
  predicate Polite(event: Event)
  {
    match event
    case AddSubject(s, _, _) => s != "" && s != PLACEHOLDER
    case DeleteQuestion(_, _, id, _) => id != PLACEHOLDER
    case AddChapter(_, _, _, _, _) => true
    case WriteQuestion(_, _, _, _, _, _, _) => true
    case GetSubjects(_) => true
  }

  lemma {:induction false} RunKeeps(state: State, events: seq<Event>)
    requires Consistent(state) && SoundRun(state, events)
    requires forall i :: 0 <= i < |events| ==> Polite(events[i])
    ensures Consistent(Run(state, events))
    decreases |events|
  {
    if events != [] {
      hide Consistent, Sound, Step;
      assert Polite(events[0]) && !Harmful(state, events[0]);
      StepKeeps(state, events[0]);
      RunKeeps(Step(state, events[0]), events[1..]);
    }
  }

  lemma EmptyConsistent()
    ensures Consistent(EMPTY)
  {
  }

  /** Over all runs from an empty table, whatever rows the existence checks miss and
      whichever statements fail. */
  lemma RunsConsistent(events: seq<Event>)
    requires SoundRun(EMPTY, events) && forall i :: 0 <= i < |events| ==> Polite(events[i])
    ensures Consistent(Run(EMPTY, events))
  {
    EmptyConsistent();
    RunKeeps(EMPTY, events);
  }

  /** A server restarted on a table keeps the table and nothing else. */
  lemma RestartConsistent(state: State)
    requires Consistent(state)
    ensures Consistent(EMPTY.(table := state.table))
  {
    hide PLACEHOLDER, Marked;
    assert CachesHold(EMPTY.(table := state.table));
  }

  /** Each exclusion is needed: three runs after which the caches or the markers are wrong. */
  lemma ExclusionsNeeded(s: string)
    requires s != "" && s != PLACEHOLDER
    ensures var nameless := [AddSubject("", false, true)];
            SoundRun(EMPTY, nameless) && !Consistent(Run(EMPTY, nameless))
    ensures var reserved := [GetSubjects(true), AddSubject(PLACEHOLDER, false, true)];
            SoundRun(EMPTY, reserved) && !Consistent(Run(EMPTY, reserved))
    ensures var unmarked := [AddSubject(s, false, true), DeleteQuestion(s, PLACEHOLDER, PLACEHOLDER, true)];
            SoundRun(EMPTY, unmarked) && !Consistent(Run(EMPTY, unmarked))
  {
    EmptyConsistent();
    RunOne(EMPTY, AddSubject("", false, true));
    StepKeeps(EMPTY, AddSubject("", false, true));
    RunTwo(EMPTY, GetSubjects(true), AddSubject(PLACEHOLDER, false, true));
    StepKeeps(EMPTY, GetSubjects(true));
    StepKeeps(Step(EMPTY, GetSubjects(true)), AddSubject(PLACEHOLDER, false, true));
    RunTwo(EMPTY, AddSubject(s, false, true), DeleteQuestion(s, PLACEHOLDER, PLACEHOLDER, true));
    StepKeeps(EMPTY, AddSubject(s, false, true));
    StepKeeps(Step(EMPTY, AddSubject(s, false, true)), DeleteQuestion(s, PLACEHOLDER, PLACEHOLDER, true));
  }

  lemma RunOne(state: State, event: Event)
    ensures Run(state, [event]) == Step(state, event)
    ensures SoundRun(state, [event]) <==> Sound(state, event)
  {
    hide Step, Sound;
    assert [event][1..] == [];
  }

  lemma RunTwo(state: State, first: Event, second: Event)
    ensures Run(state, [first, second]) == Step(Step(state, first), second)
    ensures SoundRun(state, [first, second]) <==> Sound(state, first) && Sound(Step(state, first), second)
  {
    hide Step, Sound;
    assert [first, second][1..] == [second];
    RunOne(Step(state, first), second);
  }

  // ---------- What a request changes ----------

  /** Every row but one is there as before, with its content. */
  ghost predicate OthersKept(before: Table, after: Table, key: Key)
  {
    forall k :: k != key ==> (k in after <==> k in before) && (k in before ==> after[k] == before[k])
  }

  /** 200 if the update is carried out, or the insert for a chapter that is there. */
  function WriteAnswer(state: State, event: Event): int
    requires event.WriteQuestion?
  {
    var key := Key(event.id, event.chapter, Stored(event.subject));
    if if event.seen then event.works else event.seenChapter && Inserts(state.table, key, event.works)
    then 200 else 403
  }

  /** A question answered 200 is in the table and reads as it was sent; only its row is
      touched, an update leaves the set of rows alone and an insert is for a new row. */
  lemma QuestionSaved(state: State, event: Event)
    requires event.WriteQuestion?
    ensures var next := Step(state, event);
            var subject := if event.subject == "" && !event.seen then "undefined" else event.subject;
            var key := Key(event.id, event.chapter, subject);
            && OthersKept(state.table, next.table, key)
            && (WriteAnswer(state, event) == 200 && key in next.table ==> Decoded(next.table[key]) == event.content)
            && (WriteAnswer(state, event) == 200 && Sound(state, event) ==> key in next.table)
            && (WriteAnswer(state, event) != 200 ==> next.table == state.table)
            && (event.seen ==> next.table.Keys == state.table.Keys)
            && (!event.seen && WriteAnswer(state, event) == 200 ==> key !in state.table)
            && next.subjects == state.subjects && next.chapters == state.chapters && next.count == state.count
            && (next.open <==> WriteAnswer(state, event) != 200)
  {
    Form.Server.DecodesBack(event.content);
    hide Form.Escaped, Decoded, PLACEHOLDER;
  }

  /** Saving a new question and deleting it gives the table there was. */
  lemma SavedThenDeleted(state: State, event: Event)
    requires event.WriteQuestion? && event.subject != "" && !event.seen && WriteAnswer(state, event) == 200
    ensures var next := Step(state, event);
            next.table != state.table &&
            Step(next, DeleteQuestion(event.subject, event.chapter, event.id, true)).table == state.table
  {
    hide Form.Escaped, PLACEHOLDER;
    var key := Key(event.id, event.chapter, event.subject);
    assert key in Step(state, event).table && key !in state.table;
  }

  /** A new subject gets its marker row, its place in the cache and one in the count. */
  lemma SubjectAppears(state: State, s: string, seen: bool)
    requires Consistent(state) && Sound(state, AddSubject(s, seen, true)) && s != "" && !SubjectSeen(state.table, s)
    ensures var next := Step(state, AddSubject(s, seen, true));
            && next.table == state.table[Key("placeholder", "placeholder", s) := "placeholder"]
            && next.subjects == state.subjects + {s}
            && next.count == (if state.count < 0 then state.count else state.count + 1)
  {
    assert SubjectMarker(s).subject == s;
  }

  /** A chapter that is new to a subject that is there gets its marker row and its place in
      the cache. */
  lemma ChapterAppears(state: State, s: string, c: string, seen: bool, seenChapter: bool)
    requires Consistent(state) && Sound(state, AddChapter(s, c, seen, seenChapter, true))
    requires (s in state.subjects || seen) && !ChapterSeen(state.table, s, c)
    ensures var next := Step(state, AddChapter(s, c, seen, seenChapter, true));
            && next.table == state.table[Key("placeholder", c, s) := "placeholder"]
            && (forall s1, c1 :: CachedChapter(next, s1, c1) <==> CachedChapter(state, s1, c1) || (s1 == s && c1 == c))
  {
    SubjectHasMarker(state, s);
    var key := ChapterMarker(s, c);
    assert key.subject == s && key.chapter == c;
  }

  /** Otherwise these two requests change nothing, and what they change goes together: a
      marker row that was not there, the cache entry and, for a subject, the count. A
      change of the table ends the transaction; without one it stays open, unless the
      caches alone gave the answer. */
  lemma MarkersOnly(state: State, event: Event)
    requires event.AddSubject? || event.AddChapter?
    ensures var next := Step(state, event);
            var subject := if event.subject == "" then "undefined" else event.subject;
            var key := Key("placeholder", if event.AddSubject? then "placeholder" else event.chapter, subject);
            if next.table == state.table then next == state || next == state.(open := true)
            else
              && key !in state.table && next.table == state.table[key := "placeholder"] && !next.open
              && (if event.AddSubject? then
                    && event.subject !in state.subjects && next.subjects == state.subjects + {event.subject}
                    && next.chapters == state.chapters
                  else
                    && !CachedChapter(state, event.subject, event.chapter)
                    && CachedChapter(next, event.subject, event.chapter)
                    && next.subjects == state.subjects && next.count == state.count)
  {
  }

  /** The subjects listed and counted are those of the rows, each once, but the placeholder. */
  lemma SubjectsListed(table: Table, s: string)
    ensures s in Distinct(table) <==> s != "placeholder" && SubjectSeen(table, s)
  {
  }

  // ---------- The answer to a deletion ----------

  /** 200 exactly if the COMMIT sent after the DELETE finds a transaction to end. */
  function DeleteAnswer(state: State, works: bool): int
  {
    if works && state.open then 200 else 404
  }

  /** So of two deletions in a row that remove their rows the second is always answered
      404, as is one right after a change that succeeded, while one after a query is
      answered 200 whether or not there is a row. */
  lemma DeleteAnswers(state: State, event: Event, s: string, c: string, id: string)
    ensures var next := Step(state, event);
            && Key(id, c, s) !in Step(next, DeleteQuestion(s, c, id, true)).table
            && OthersKept(next.table, Step(next, DeleteQuestion(s, c, id, true)).table, Key(id, c, s))
            && (event.GetSubjects? ==> DeleteAnswer(next, true) == 200)
            && (event.DeleteQuestion? && event.works ==> DeleteAnswer(next, true) == 404)
            && (event.DeleteQuestion? && !event.works ==> next == state)
            && (!event.DeleteQuestion? && Key(id, c, s) in next.table && Key(id, c, s) !in state.table
                ==> DeleteAnswer(next, true) == 404)
  {
    hide PLACEHOLDER, Distinct;
  }

  // ---------- The server ----------

  /** The table behind question_bank's statements; works is whether SQLite carries one out,
      open whether BEGIN has been sent without END or COMMIT. */
  class QuestionBank {
    var table: Table
    var open: bool

    constructor ()
      ensures table == map[] && !open
    {
      table, open := map[], false;
    }

    /** checkExistence and the other queries begin a transaction and do not end it. */
    method CheckExistence(found: bool) returns (existence: bool)
      modifies this`open
      ensures open && existence == found
    {
      open := true;
      existence := found;
    }

    method Insert(path: string, content: string, chapter: string, category: string, works: bool) returns (rc: int)
      modifies this
      ensures var key := Key(path, chapter, Stored(category));
              if Inserts(old(table), key, works) then rc >= 0 && table == old(table)[key := content] && !open
              else rc < 0 && table == old(table) && open
    {
      var subject := category;
      if |subject| == 0 {
        subject := "undefined";
      }
      var key := Key(path, chapter, subject);
      open := true;
      if !works || key in table {
        return -1;
      }
      table := table[key := content];
      open := false;
      rc := 101;  // SQLITE_DONE
    }

    method Update(key: Key, content: string, works: bool) returns (rc: int)
      modifies this
      ensures works <==> rc >= 0
      ensures table == if works && key in old(table) then old(table)[key := content] else old(table)
      ensures open == !works
    {
      open := true;
      if !works {
        return -1;
      }
      if key in table {
        table := table[key := content];
      }
      open := false;
      rc := 0;
    }

    /** DELETE followed by COMMIT: without a transaction the deletion stands by itself and
        the COMMIT is an error. */
    method Delet(key: Key, works: bool) returns (rc: int)
      modifies this
      ensures table == if works then old(table) - {key} else old(table)
      ensures open == (old(open) && !works)
      ensures rc >= 0 <==> works && old(open)
    {
      if !works {
        return -1;
      }
      table := table - {key};
      if !open {
        return -1;
      }
      open := false;
      rc := 0;
    }

    /** countDistinct of the subjects. */
    method CountDistinct(works: bool) returns (n: int)
      modifies this`open
      ensures open && n == if works then |Distinct(table)| else -1
    {
      open := true;
      n := if works then |Distinct(table)| else -1;
    }

    method Attributes() returns (names: set<string>)
      modifies this`open
      ensures open && names == Distinct(table)
    {
      open := true;
      names := Distinct(table);
    }
  }

  class Server {
    const bank: QuestionBank
    var subjectCache: set<string>
    var chapterCache: map<string, set<string>>
    var subjectCountCache: int

    ghost function Now(): State
      reads this, bank
    {
      State(bank.table, bank.open, subjectCache, chapterCache, subjectCountCache)
    }

    constructor (bank: QuestionBank)
      ensures this.bank == bank && Now() == EMPTY.(table := bank.table, open := bank.open)
    {
      this.bank := bank;
      subjectCache, chapterCache, subjectCountCache := {}, map[], -1;
    }

    /** addSubject answers 200 exactly if there is a new marker row. */
    method AddSubject(subject: string, seen: bool, works: bool) returns (code: int)
      modifies this, bank
      ensures Now() == Step(old(Now()), Event.AddSubject(subject, seen, works))
      ensures code == if bank.table != old(bank.table) then 200 else 403
    {
      hide PLACEHOLDER;
      var existence := true;
      if subject !in subjectCache {
        existence := bank.CheckExistence(seen);
      }
      if existence {
        return 403;
      }
      var rc := bank.Insert(PLACEHOLDER, PLACEHOLDER, PLACEHOLDER, subject, works);
      if rc < 0 {
        return 403;
      }
      assert SubjectMarker(Stored(subject)) in bank.table;
      subjectCache := subjectCache + {subject};
      if subjectCountCache >= 0 {
        subjectCountCache := subjectCountCache + 1;
      }
      code := 200;
    }

    /** addChapter, the same for a chapter of an existing subject. */
    method AddChapter(subject: string, chapter: string, seen: bool, seenChapter: bool, works: bool) returns (code: int)
      modifies this, bank
      ensures Now() == Step(old(Now()), Event.AddChapter(subject, chapter, seen, seenChapter, works))
      ensures code == if bank.table != old(bank.table) then 200 else 403
    {
      hide PLACEHOLDER;
      var existence := true;
      if subject !in subjectCache {
        existence := bank.CheckExistence(seen);
      }
      if !existence {
        return 403;
      }
      if !(subject in chapterCache && chapter in chapterCache[subject]) {
        existence := bank.CheckExistence(seenChapter);
      }
      if existence {
        return 403;
      }
      var rc := bank.Insert(PLACEHOLDER, PLACEHOLDER, chapter, subject, works);
      if rc < 0 {
        return 403;
      }
      assert ChapterMarker(Stored(subject), chapter) in bank.table;
      if subject !in chapterCache {
        chapterCache := chapterCache[subject := {}];
      }
      chapterCache := chapterCache[subject := chapterCache[subject] + {chapter}];
      code := 200;
    }

    /** writeQuestion: updates a question that is there, or adds one to a chapter that is. */
    method WriteQuestion(subject: string, chapter: string, id: string, content: string,
                         seen: bool, seenChapter: bool, works: bool) returns (code: int)
      modifies this, bank
      ensures Now() == Step(old(Now()), Event.WriteQuestion(subject, chapter, id, content, seen, seenChapter, works))
      ensures code == WriteAnswer(old(Now()), Event.WriteQuestion(subject, chapter, id, content, seen, seenChapter, works))
      ensures code == 200 <==>
              if seen then works else seenChapter && Inserts(old(bank.table), Key(id, chapter, Stored(subject)), works)
    {
      var escaped := Form.Server.EscapeJsonString(content);
      var rc;
      var existence := bank.CheckExistence(seen);
      if !existence {
        existence := bank.CheckExistence(seenChapter);
        if !existence {
          return 403;
        }
        rc := bank.Insert(id, escaped, chapter, subject, works);
      } else {
        rc := bank.Update(Key(id, chapter, subject), escaped, works);
      }
      code := if rc < 0 then 403 else 200;
    }

    /** deleteQuestion: the answer tells whether a transaction was open, and nothing about
        the row. */
    method DeleteQuestion(subject: string, chapter: string, id: string, works: bool) returns (code: int)
      modifies this, bank
      ensures Now() == Step(old(Now()), Event.DeleteQuestion(subject, chapter, id, works))
      ensures code == DeleteAnswer(old(Now()), works)
    {
      var rc := bank.Delet(Key(id, chapter, subject), works);
      code := if rc >= 0 then 200 else 404;
    }

    /** getSubjects: fills the counter the first time and lists the subjects. In a
        consistent state there are as many of them as the counter says. */
    method GetSubjects(works: bool) returns (code: int, names: set<string>)
      modifies this, bank`open
      ensures Now() == Step(old(Now()), Event.GetSubjects(works))
      ensures code == 403 || (code == 200 && names == Distinct(bank.table))
      ensures code == 200 <==> subjectCountCache >= 0
      ensures code == 200 && CountHolds(old(Now())) ==> |names| == subjectCountCache
    {
      hide PLACEHOLDER;
      var subjectNum;
      if subjectCountCache < 0 {
        subjectCountCache := bank.CountDistinct(works);
      }
      subjectNum := subjectCountCache;
      names := {};
      if subjectNum < 0 {
        return 403, names;
      }
      code := 200;
      names := bank.Attributes();
    }
  }

  /** Sends a run of requests to a new server. */
  method Serve(events: seq<Event>) returns (table: Table, count: int)
    requires SoundRun(EMPTY, events) && forall i :: 0 <= i < |events| ==> Polite(events[i])
    ensures var last := Run(EMPTY, events); table == last.table && count == last.count && Consistent(last)
    ensures Marked(table) && (count == -1 || count == |Distinct(table)|)
  {
    var bank := new QuestionBank();
    var server := new Server(bank);
    hide Step, Consistent, Sound, PLACEHOLDER, Marked, Distinct;
    assert server.Now() == EMPTY;
    assert events[0..] == events;
    for i := 0 to |events|
      invariant fresh(bank) && fresh(server) && server.bank == bank
      invariant Run(server.Now(), events[i..]) == Run(EMPTY, events)
    {
      assert events[i..][0] == events[i] && events[i..][1..] == events[i + 1..];
      Handle(server, events[i]);
    }
    assert events[|events|..] == [];
    RunsConsistent(events);
    RunEnds(server.Now());
    table, count := bank.table, server.subjectCountCache;
    ConsistentParts(server.Now());
  }

  lemma RunEnds(state: State)
    ensures Run(state, []) == state
  {
  }

  lemma ConsistentParts(state: State)
    requires Consistent(state)
    ensures Marked(state.table) && (state.count == -1 || state.count == |Distinct(state.table)|)
  {
  }

  method Handle(server: Server, event: Event)
    modifies server, server.bank
    ensures server.Now() == Step(old(server.Now()), event)
  {
    hide Step;
    match event
    case AddSubject(s, seen, works) => var _ := server.AddSubject(s, seen, works);
    case AddChapter(s, c, seen, seenChapter, works) => var _ := server.AddChapter(s, c, seen, seenChapter, works);
    case WriteQuestion(s, c, id, content, seen, seenChapter, works) =>
      var _ := server.WriteQuestion(s, c, id, content, seen, seenChapter, works);
    case DeleteQuestion(s, c, id, works) => var _ := server.DeleteQuestion(s, c, id, works);
    case GetSubjects(works) => var _, _ := server.GetSubjects(works);
  }
}
