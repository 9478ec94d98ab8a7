/**
 * The long-term memory manager: three typed save operations over one
 * store, two-stage retrieval, prompt formatting, the heuristic extractor
 * run after each turn, and the bounded record count.
 */
module Memory {
  import opened Wrappers
  import opened Text
  import opened Records
  import opened Store
  import opened Ranking

  /** The search limit `get_memory_count` uses. */
  const COUNT_CEILING: nat := 1000

  const NAME_PHRASE := "my name is"
  const LIKE_PHRASE := "i like"
  const PREFER_PHRASE := "i prefer"

  // ---------------------------------------------------------------------
  // Where records live

  function SemanticKey(userId: string, context: string, id: string): Key {
    Key([userId, SEMANTIC, context], id)
  }

  function EpisodicKey(userId: string, taskContext: string, id: string): Key {
    Key([userId, EPISODIC, taskContext], id)
  }

  /** Procedural records are keyed by their context, not by a generated id. */
  function ProceduralKey(userId: string, context: string): Key {
    Key([userId, PROCEDURAL], context)
  }

  /**
   * How the manager files a record: the second namespace component is the
   * record's type, semantic and episodic records carry their context as
   * the third component and procedural ones as their key, and the
   * searchable content is derived from the payload.
   */
  predicate Filed(k: Key, m: MemoryRecord) {
    |k.ns| >= 2 &&
    ((k.ns[1] == SEMANTIC && |k.ns| == 3 && m.kind == Some(SEMANTIC) && m.context == Some(k.ns[2]) &&
      m.facts.Some? && m.searchableContent == Some(Join(" ", m.facts.value))) ||
     (k.ns[1] == EPISODIC && |k.ns| == 3 && m.kind == Some(EPISODIC) && m.context == Some(k.ns[2]) &&
      m.interaction.Some? && m.searchableContent == Some(EpisodicContent(m.interaction.value)) &&
      m.success == Some(m.interaction.value.success.GetOr(true))) ||
     (k.ns[1] == PROCEDURAL && |k.ns| == 2 && m.kind == Some(PROCEDURAL) && m.context == Some(k.id) &&
      m.instructions.Some? && m.searchableContent == m.instructions))
  }

  ghost predicate AllFiled(entries: map<Key, MemoryRecord>) {
    forall k :: k in entries ==> Filed(k, entries[k])
  }

  /** A fresh id (what `uuid.uuid4()` provides): no stored key uses it. */
  predicate Unused(entries: map<Key, MemoryRecord>, id: string) {
    forall k :: k in entries ==> k.id != id
  }

  /** `m` is stored somewhere under `prefix`. */
  ghost predicate StoredUnder(entries: map<Key, MemoryRecord>, prefix: seq<string>, m: MemoryRecord) {
    exists k :: k in entries && prefix <= k.ns && entries[k] == m
  }

  /** A record filed under `(user_id, t)` has type `t`. */
  lemma FiledKind(k: Key, m: MemoryRecord)
    requires Filed(k, m)
    ensures m.kind == Some(k.ns[1])
  {
  }

  /** The procedural records of one user that hold `context`. */
  function ProceduralFor(entries: map<Key, MemoryRecord>, userId: string, context: string): set<Key> {
    set k | k in entries && [userId, PROCEDURAL] <= k.ns && entries[k].context == Some(context)
  }

  /**
   * Procedural memory is a standing instruction, not a log: after a save,
   * the user has exactly one procedural record for that context, and it
   * holds the instructions just saved.
   */
  lemma ProceduralOnePerContext(entries: map<Key, MemoryRecord>, userId: string, context: string, instructions: string, now: string)
    requires AllFiled(entries)
    ensures var e := entries[ProceduralKey(userId, context) := ProceduralRecord(instructions, context, now)];
      AllFiled(e) &&
      ProceduralFor(e, userId, context) == {ProceduralKey(userId, context)} &&
      e[ProceduralKey(userId, context)].instructions == Some(instructions)
  {
    var k := ProceduralKey(userId, context);
    var e := entries[k := ProceduralRecord(instructions, context, now)];
    forall k' | k' in ProceduralFor(e, userId, context) ensures k' == k {
      assert Filed(k', e[k']);
      assert k'.ns[1] == PROCEDURAL;
    }
  }

  /** Saving twice under the same context leaves the later instructions and no second record. */
  lemma ProceduralSaveTwice(entries: map<Key, MemoryRecord>, userId: string, context: string,
                            first: string, second: string, t1: string, t2: string)
    requires AllFiled(entries)
    ensures var k := ProceduralKey(userId, context);
      var once := entries[k := ProceduralRecord(first, context, t1)];
      var twice := once[k := ProceduralRecord(second, context, t2)];
      twice == entries[k := ProceduralRecord(second, context, t2)] &&
      ProceduralFor(twice, userId, context) == {k} &&
      twice[k].instructions == Some(second) &&
      MatchingKeys(twice, [userId]) == MatchingKeys(once, [userId])
  {
    ProceduralOnePerContext(entries, userId, context, second, t2);
  }

  // ---------------------------------------------------------------------
  // Retrieval

  /** `(user_id, memory_type)` when a type is given (a non-empty string), else `(user_id,)`. */
  function RetrievalPrefix(userId: string, memoryType: Option<string>): (p: seq<string>)
    ensures [userId] <= p
  {
    if memoryType.Some? && memoryType.value != "" then [userId, memoryType.value] else [userId]
  }

  /** The hits of a ranking, in order. */
  function Hits(ranked: seq<Scored>): seq<Item> {
    seq(|ranked|, i requires 0 <= i < |ranked| => ranked[i].item)
  }

  lemma CandidatesStored(entries: map<Key, MemoryRecord>, prefix: seq<string>, limit: nat, cands: seq<Item>, j: nat)
    requires SearchAnswer(entries, prefix, limit, cands) && j < |cands|
    ensures StoredUnder(entries, prefix, cands[j].value)
  {
    assert cands[j].key in entries && entries[cands[j].key] == cands[j].value;
  }

  /** A record stored under `(user_id, t)` is of type `t` and stored under `(user_id,)`. */
  lemma StoredUnderType(entries: map<Key, MemoryRecord>, userId: string, memoryType: Option<string>, m: MemoryRecord)
    requires AllFiled(entries) && StoredUnder(entries, RetrievalPrefix(userId, memoryType), m)
    ensures StoredUnder(entries, [userId], m)
    ensures memoryType.Some? && memoryType.value != "" ==> m.kind == memoryType
  {
    var p := RetrievalPrefix(userId, memoryType);
    var k :| k in entries && p <= k.ns && entries[k] == m;
    assert [userId] <= k.ns;
    FiledKind(k, m);
  }

  /**
   * The first `limit` hits of a ranking: candidates that pass the
   * threshold, in non-increasing overlap.
   */
  lemma RankedHits(qw: set<string>, cands: seq<Item>, ranked: seq<Scored>, limit: nat)
    requires IsRanking(qw, cands, ranked)
    ensures var hits := Hits(ranked[..Min(limit, |ranked|)]);
      |hits| <= limit &&
      (forall j :: 0 <= j < |hits| ==> hits[j] in cands && Passes(qw, Overlap(qw, hits[j].value))) &&
      (forall i, j :: 0 <= i < j < |hits| ==> Overlap(qw, hits[i].value) >= Overlap(qw, hits[j].value))
  {
    var hits := Hits(ranked[..Min(limit, |ranked|)]);
    forall j | 0 <= j < |hits|
      ensures hits[j] in cands && Passes(qw, Overlap(qw, hits[j].value))
      ensures Overlap(qw, hits[j].value) == ranked[j].overlap
    {
      RankedFromCandidates(qw, cands, ranked, j);
    }
    forall i, j | 0 <= i < j < |hits|
      ensures Overlap(qw, hits[i].value) >= Overlap(qw, hits[j].value)
    {
      assert RankedBefore(ranked[i], ranked[j]);
    }
  }

  /** Hits drawn from a search answer are the user's records, and of the requested type. */
  lemma HitsStored(entries: map<Key, MemoryRecord>, userId: string, memoryType: Option<string>, limit: nat,
                   cands: seq<Item>, hits: seq<Item>)
    requires AllFiled(entries) && SearchAnswer(entries, RetrievalPrefix(userId, memoryType), limit, cands)
    requires forall j :: 0 <= j < |hits| ==> hits[j] in cands
    ensures forall j :: 0 <= j < |hits| ==> StoredUnder(entries, [userId], hits[j].value)
    ensures memoryType.Some? && memoryType.value != "" ==>
      forall j :: 0 <= j < |hits| ==> hits[j].value.kind == memoryType
  {
    forall j | 0 <= j < |hits|
      ensures StoredUnder(entries, [userId], hits[j].value)
      ensures memoryType.Some? && memoryType.value != "" ==> hits[j].value.kind == memoryType
    {
      assert hits[j] in cands;
      var c :| 0 <= c < |cands| && cands[c] == hits[j];
      CandidatesStored(entries, RetrievalPrefix(userId, memoryType), limit, cands, c);
      StoredUnderType(entries, userId, memoryType, hits[j].value);
    }
  }

  /** No record of the user: nothing under any of the user's namespaces. */
  lemma NoneForUser(entries: map<Key, MemoryRecord>, userId: string, memoryType: Option<string>)
    requires MatchingKeys(entries, [userId]) == {}
    ensures MatchingKeys(entries, RetrievalPrefix(userId, memoryType)) == {}
  {
  }

  /**
   * Querying with one of the facts of a semantic record: every query word
   * occurs in the record's searchable content, so the record passes the
   * lexical threshold whenever the fact has a word at all.
   */
  lemma SavedFactPassesFilter(facts: seq<string>, i: nat, context: string, now: string)
    requires i < |facts|
    ensures Overlap(QueryWords(facts[i]), SemanticRecord(facts, context, now)) == |QueryWords(facts[i])|
    ensures QueryWords(facts[i]) != {} ==>
      Passes(QueryWords(facts[i]), Overlap(QueryWords(facts[i]), SemanticRecord(facts, context, now)))
  {
    var qw := QueryWords(facts[i]);
    ContentOfSavedRecord(facts, EmptyInteraction, "", context, now);
    JoinedWordsContain(facts, i);
    assert qw * WordSet(Lower(ContentOf(SemanticRecord(facts, context, now)))) == qw;
  }

  /**
   * With more than `limit` but at most `2 * limit` records under the
   * searched prefix, every one of them is a candidate. A semantic record
   * queried by one of its facts that has a word then passes the lexical
   * filter with full overlap. Whether it also survives the top-`limit`
   * cut depends on how the other candidates score.
   */
  lemma SavedFactIsRelevant(entries: map<Key, MemoryRecord>, prefix: seq<string>, limit: nat, cands: seq<Item>,
                            k: Key, facts: seq<string>, i: nat, context: string, now: string)
    requires SearchAnswer(entries, prefix, 2 * limit, cands)
    requires |MatchingKeys(entries, prefix)| <= 2 * limit
    requires k in entries && prefix <= k.ns && entries[k] == SemanticRecord(facts, context, now)
    requires i < |facts| && QueryWords(facts[i]) != {}
    ensures exists p ::
      (0 <= p < |cands| && cands[p].key == k &&
       Scored(cands[p], |QueryWords(facts[i])|, p) in Relevant(QueryWords(facts[i]), cands))
  {
    SearchWithinLimitIsComplete(entries, prefix, 2 * limit, cands);
    assert k in KeysOf(cands);
    var p :| 0 <= p < |cands| && cands[p].key == k;
    SavedFactPassesFilter(facts, i, context, now);
    RelevantComplete(QueryWords(facts[i]), cands, p, |QueryWords(facts[i])|);
  }

  // ---------------------------------------------------------------------
  // Formatting

  /** `semantic_facts` after the loop: the facts of the semantic records, in order. */
  function FactsOf(ms: seq<MemoryRecord>): seq<string>
    decreases |ms|
  {
    if ms == [] then []
    else
      var m := ms[|ms| - 1];
      FactsOf(ms[..|ms| - 1]) + (if m.kind == Some(SEMANTIC) then m.facts.GetOr([]) else [])
  }

  /** `episodic_examples` after the loop: one interaction per episodic record, in order. */
  function InteractionsOf(ms: seq<MemoryRecord>): seq<Interaction>
    decreases |ms|
  {
    if ms == [] then []
    else
      var m := ms[|ms| - 1];
      InteractionsOf(ms[..|ms| - 1]) + (if m.kind == Some(EPISODIC) then [m.interaction.GetOr(EmptyInteraction)] else [])
  }

  /** `procedural_rules` after the loop: one instruction per procedural record, in order. */
  function RulesOf(ms: seq<MemoryRecord>): seq<string>
    decreases |ms|
  {
    if ms == [] then []
    else
      var m := ms[|ms| - 1];
      RulesOf(ms[..|ms| - 1]) + (if m.kind == Some(PROCEDURAL) then [m.instructions.GetOr("")] else [])
  }

  /** The three sections, each present only when its list is non-empty, in this order. */
  function Sections(facts: seq<string>, examples: seq<Interaction>, rules: seq<string>,
                    dumps: seq<Interaction> -> string): seq<string>
  {
    (if facts != [] then ["Known facts: " + Join("; ", facts)] else []) +
    (if examples != [] then ["Past interactions: " + dumps(examples[..Min(3, |examples|)])] else []) +
    (if rules != [] then ["Instructions/Preferences: " + Join("; ", rules)] else [])
  }

  /** What `format_memories_for_context` returns; `dumps` stands for `json.dumps(..., indent=2)`. */
  function FormattedContext(ms: seq<MemoryRecord>, dumps: seq<Interaction> -> string): string {
    if ms == [] then "" else Join("\n", Sections(FactsOf(ms), InteractionsOf(ms), RulesOf(ms), dumps))
  }

  predicate Recognised(m: MemoryRecord) {
    m.kind == Some(SEMANTIC) || m.kind == Some(EPISODIC) || m.kind == Some(PROCEDURAL)
  }

  /** The gathered lists follow the memories: concatenating memories concatenates them. */
  lemma GatherAppend(a: seq<MemoryRecord>, b: seq<MemoryRecord>)
    ensures FactsOf(a + b) == FactsOf(a) + FactsOf(b)
    ensures InteractionsOf(a + b) == InteractionsOf(a) + InteractionsOf(b)
    ensures RulesOf(a + b) == RulesOf(a) + RulesOf(b)
  {
    FactsAppend(a, b);
    InteractionsAppend(a, b);
    RulesAppend(a, b);
  }

  lemma {:induction false} FactsAppend(a: seq<MemoryRecord>, b: seq<MemoryRecord>)
    ensures FactsOf(a + b) == FactsOf(a) + FactsOf(b)
    decreases |b|
  {
    if b != [] {
      var n := |b| - 1;
      assert (a + b)[..|a + b| - 1] == a + b[..n];
      assert (a + b)[|a + b| - 1] == b[n];
      FactsAppend(a, b[..n]);
    } else {
      assert a + b == a;
    }
  }

  lemma {:induction false} InteractionsAppend(a: seq<MemoryRecord>, b: seq<MemoryRecord>)
    ensures InteractionsOf(a + b) == InteractionsOf(a) + InteractionsOf(b)
    decreases |b|
  {
    if b != [] {
      var n := |b| - 1;
      assert (a + b)[..|a + b| - 1] == a + b[..n];
      assert (a + b)[|a + b| - 1] == b[n];
      InteractionsAppend(a, b[..n]);
    } else {
      assert a + b == a;
    }
  }

  lemma {:induction false} RulesAppend(a: seq<MemoryRecord>, b: seq<MemoryRecord>)
    ensures RulesOf(a + b) == RulesOf(a) + RulesOf(b)
    decreases |b|
  {
    if b != [] {
      var n := |b| - 1;
      assert (a + b)[..|a + b| - 1] == a + b[..n];
      assert (a + b)[|a + b| - 1] == b[n];
      RulesAppend(a, b[..n]);
    } else {
      assert a + b == a;
    }
  }

  /** Records of an unrecognised type contribute nothing. */
  lemma {:induction false} GatherUnrecognised(ms: seq<MemoryRecord>)
    requires forall i :: 0 <= i < |ms| ==> !Recognised(ms[i])
    ensures FactsOf(ms) == [] && InteractionsOf(ms) == [] && RulesOf(ms) == []
    decreases |ms|
  {
    if ms != [] {
      GatherUnrecognised(ms[..|ms| - 1]);
    }
  }

  lemma JoinStartsWith(sep: string, xs: seq<string>)
    requires xs != []
    ensures xs[0] <= Join(sep, xs)
  {
  }

  /**
   * The text is empty exactly when there are no facts, no interactions and
   * no instructions to show; in particular for `[]` and for memories whose
   * types are all unrecognised.
   */
  lemma FormatEmptyIff(ms: seq<MemoryRecord>, dumps: seq<Interaction> -> string)
    ensures FormattedContext(ms, dumps) == "" <==>
      (FactsOf(ms) == [] && InteractionsOf(ms) == [] && RulesOf(ms) == [])
    ensures (forall i :: 0 <= i < |ms| ==> !Recognised(ms[i])) ==> FormattedContext(ms, dumps) == ""
  {
    var parts := Sections(FactsOf(ms), InteractionsOf(ms), RulesOf(ms), dumps);
    if parts != [] {
      JoinStartsWith("\n", parts);
      assert |parts[0]| > 0;
    }
    if forall i :: 0 <= i < |ms| ==> !Recognised(ms[i]) {
      GatherUnrecognised(ms);
    }
  }

  /**
   * At most three interactions are rendered: once three episodic records
   * have been seen, further episodic records do not change the text.
   */
  lemma FormatShowsFirstThreeInteractions(ms: seq<MemoryRecord>, later: seq<MemoryRecord>, dumps: seq<Interaction> -> string)
    requires |InteractionsOf(ms)| >= 3
    requires forall i :: 0 <= i < |later| ==> later[i].kind == Some(EPISODIC)
    ensures FormattedContext(ms + later, dumps) == FormattedContext(ms, dumps)
  {
    GatherAppend(ms, later);
    OnlyInteractions(later);
    var xs := InteractionsOf(ms + later);
    var ys := InteractionsOf(ms);
    assert FactsOf(ms + later) == FactsOf(ms) && RulesOf(ms + later) == RulesOf(ms);
    assert xs == ys + InteractionsOf(later);
    assert Min(3, |xs|) == 3 == Min(3, |ys|);
    assert xs[..3] == ys[..3];
    assert Sections(FactsOf(ms + later), xs, RulesOf(ms + later), dumps) == Sections(FactsOf(ms), ys, RulesOf(ms), dumps);
    assert ms != [] && ms + later != [];
  }

  lemma {:induction false} OnlyInteractions(ms: seq<MemoryRecord>)
    requires forall i :: 0 <= i < |ms| ==> ms[i].kind == Some(EPISODIC)
    ensures FactsOf(ms) == [] && RulesOf(ms) == []
    decreases |ms|
  {
    if ms != [] {
      OnlyInteractions(ms[..|ms| - 1]);
    }
  }

  lemma AllSections(facts: seq<string>, xs: seq<Interaction>, rules: seq<string>, dumps: seq<Interaction> -> string)
    requires facts != [] && xs != [] && rules != []
    ensures Join("\n", Sections(facts, xs, rules, dumps)) ==
      "Known facts: " + Join("; ", facts) + "\n" +
      "Past interactions: " + dumps(xs[..Min(3, |xs|)]) + "\n" +
      "Instructions/Preferences: " + Join("; ", rules)
  {
    var f := "Known facts: " + Join("; ", facts);
    var p := "Past interactions: " + dumps(xs[..Min(3, |xs|)]);
    var r := "Instructions/Preferences: " + Join("; ", rules);
    assert Sections(facts, xs, rules, dumps) == [f, p, r];
    JoinThree("\n", f, p, r);
  }

  /** With all three kinds present, the sections come as facts, interactions, instructions, one per line. */
  lemma FormatSectionOrder(ms: seq<MemoryRecord>, dumps: seq<Interaction> -> string)
    requires FactsOf(ms) != [] && InteractionsOf(ms) != [] && RulesOf(ms) != []
    ensures var xs := InteractionsOf(ms);
      FormattedContext(ms, dumps) ==
        "Known facts: " + Join("; ", FactsOf(ms)) + "\n" +
        "Past interactions: " + dumps(xs[..Min(3, |xs|)]) + "\n" +
        "Instructions/Preferences: " + Join("; ", RulesOf(ms))
  {
    AllSections(FactsOf(ms), InteractionsOf(ms), RulesOf(ms), dumps);
  }

  // ---------------------------------------------------------------------
  // The heuristic extractor and the count

  /**
   * The readings of `datetime.now()` during one turn: the interaction's own
   * timestamp, then the timestamps of the episodic record, of the name fact
   * and of the preference fact. Each is an opaque ISO string.
   */
  datatype TurnClock = TurnClock(turn: string, episodic: string, name: string, preference: string)

  /** The interaction `analyze_and_save_memories` records for one turn. */
  function TurnInteraction(userInput: string, assistantResponse: string, now: string): Interaction {
    Interaction(Some(userInput), Some(assistantResponse), Some(now), Some(true))
  }

  predicate MentionsName(userInput: string) {
    Contains(Lower(userInput), NAME_PHRASE)
  }

  predicate MentionsPreference(userInput: string) {
    Contains(Lower(userInput), LIKE_PHRASE) || Contains(Lower(userInput), PREFER_PHRASE)
  }

  /** The name fact: what follows the first "my name is" (up to the next one), stripped. */
  function NameFact(userInput: string): string
    requires MentionsName(userInput)
  {
    "User's name is " + Strip(SecondPiece(Lower(userInput), NAME_PHRASE))
  }

  function PreferenceFact(userInput: string): string {
    "User preference: " + Strip(userInput)
  }

  /** The store after `analyze_and_save_memories`: one episodic record, then up to two semantic ones. */
  function AnalyzedEntries(entries: map<Key, MemoryRecord>, userInput: string, assistantResponse: string, userId: string,
                           clock: TurnClock, episodicId: string, nameId: string, preferenceId: string): map<Key, MemoryRecord>
  {
    var e1 := entries[EpisodicKey(userId, GENERAL, episodicId) :=
                      EpisodicRecord(TurnInteraction(userInput, assistantResponse, clock.turn), GENERAL, clock.episodic)];
    WithPreference(WithNameFact(e1, userInput, userId, clock.name, nameId), userInput, userId, clock.preference, preferenceId)
  }

  /** The name fact saved when the input gives a name. */
  function WithNameFact(entries: map<Key, MemoryRecord>, userInput: string, userId: string, now: string, nameId: string): map<Key, MemoryRecord> {
    if MentionsName(userInput)
    then entries[SemanticKey(userId, GENERAL, nameId) := SemanticRecord([NameFact(userInput)], GENERAL, now)]
    else entries
  }

  /** The preference fact saved when the input states a preference. */
  function WithPreference(entries: map<Key, MemoryRecord>, userInput: string, userId: string, now: string, preferenceId: string): map<Key, MemoryRecord> {
    if MentionsPreference(userInput)
    then entries[SemanticKey(userId, GENERAL, preferenceId) := SemanticRecord([PreferenceFact(userInput)], GENERAL, now)]
    else entries
  }

  function Indicator(b: bool): nat {
    if b then 1 else 0
  }

  /** Three ids fresh for the store and distinct from one another. */
  predicate FreshIds(entries: map<Key, MemoryRecord>, a: string, b: string, c: string) {
    Unused(entries, a) && Unused(entries, b) && Unused(entries, c) && a != b && a != c && b != c
  }

  /**
   * A turn always adds exactly one episodic record of the user, one
   * semantic record when the input gives a name and one when it states a
   * preference; nothing stored before is changed.
   */
  lemma AnalyzedCounts(entries: map<Key, MemoryRecord>, userInput: string, assistantResponse: string, userId: string,
                       clock: TurnClock, episodicId: string, nameId: string, preferenceId: string)
    requires FreshIds(entries, episodicId, nameId, preferenceId)
    ensures var e := AnalyzedEntries(entries, userInput, assistantResponse, userId, clock, episodicId, nameId, preferenceId);
      |MatchingKeys(e, [userId, EPISODIC])| == |MatchingKeys(entries, [userId, EPISODIC])| + 1 &&
      |MatchingKeys(e, [userId, SEMANTIC])| == |MatchingKeys(entries, [userId, SEMANTIC])|
        + Indicator(MentionsName(userInput)) + Indicator(MentionsPreference(userInput)) &&
      |MatchingKeys(e, [userId])| == |MatchingKeys(entries, [userId])|
        + 1 + Indicator(MentionsName(userInput)) + Indicator(MentionsPreference(userInput)) &&
      forall k :: k in entries ==> k in e && e[k] == entries[k]
  {
    var ek := EpisodicKey(userId, GENERAL, episodicId);
    var nk := SemanticKey(userId, GENERAL, nameId);
    var pk := SemanticKey(userId, GENERAL, preferenceId);
    var v2 := SemanticRecord([if MentionsName(userInput) then NameFact(userInput) else ""], GENERAL, clock.name);
    ThreeInserts(entries, userId, ek, nk, pk,
                 EpisodicRecord(TurnInteraction(userInput, assistantResponse, clock.turn), GENERAL, clock.episodic), v2,
                 SemanticRecord([PreferenceFact(userInput)], GENERAL, clock.preference),
                 MentionsName(userInput), MentionsPreference(userInput));
  }

  /** The counting argument of `AnalyzedCounts`, for one insert and two optional ones. */
  lemma ThreeInserts(entries: map<Key, MemoryRecord>, userId: string, ek: Key, nk: Key, pk: Key,
                     v1: MemoryRecord, v2: MemoryRecord, v3: MemoryRecord, named: bool, preferred: bool)
    requires ek !in entries && nk !in entries && pk !in entries && ek != nk && ek != pk && nk != pk
    requires ek.ns == [userId, EPISODIC, GENERAL] && nk.ns == [userId, SEMANTIC, GENERAL] && pk.ns == nk.ns
    ensures var e1 := entries[ek := v1];
      var e2 := if named then e1[nk := v2] else e1;
      var e := if preferred then e2[pk := v3] else e2;
      |MatchingKeys(e, [userId, EPISODIC])| == |MatchingKeys(entries, [userId, EPISODIC])| + 1 &&
      |MatchingKeys(e, [userId, SEMANTIC])| == |MatchingKeys(entries, [userId, SEMANTIC])|
        + Indicator(named) + Indicator(preferred) &&
      |MatchingKeys(e, [userId])| == |MatchingKeys(entries, [userId])| + 1 + Indicator(named) + Indicator(preferred) &&
      forall k :: k in entries ==> k in e && e[k] == entries[k]
  {
    var e1 := entries[ek := v1];
    StepCounts(entries, ek, v1, userId);
    var e2 := if named then e1[nk := v2] else e1;
    if named {
      StepCounts(e1, nk, v2, userId);
    }
    if preferred {
      StepCounts(e2, pk, v3, userId);
    }
  }

  /** One new semantic or episodic record of a user: one more for the user, and one more for its type. */
  lemma StepCounts(entries: map<Key, MemoryRecord>, k: Key, v: MemoryRecord, userId: string)
    requires k !in entries && |k.ns| == 3 && k.ns[0] == userId && (k.ns[1] == SEMANTIC || k.ns[1] == EPISODIC)
    ensures var e := entries[k := v];
      |MatchingKeys(e, [userId])| == |MatchingKeys(entries, [userId])| + 1 &&
      |MatchingKeys(e, [userId, EPISODIC])| == |MatchingKeys(entries, [userId, EPISODIC])| + Indicator(k.ns[1] == EPISODIC) &&
      |MatchingKeys(e, [userId, SEMANTIC])| == |MatchingKeys(entries, [userId, SEMANTIC])| + Indicator(k.ns[1] == SEMANTIC)
  {
    assert EPISODIC[0] != SEMANTIC[0];
    assert [userId] <= k.ns;
    MatchingAfterInsert(entries, k, v, [userId]);
    MatchingAfterInsert(entries, k, v, [userId, EPISODIC]);
    MatchingAfterInsert(entries, k, v, [userId, SEMANTIC]);
  }

  /** The bounded count `get_memory_count` answers. */
  function MemoryCount(entries: map<Key, MemoryRecord>, userId: string): nat {
    Min(COUNT_CEILING, |MatchingKeys(entries, [userId])|)
  }

  /** Below the ceiling, a turn raises the user's count by one to three. */
  lemma AnalyzedCount(entries: map<Key, MemoryRecord>, userInput: string, assistantResponse: string, userId: string,
                      clock: TurnClock, episodicId: string, nameId: string, preferenceId: string)
    requires FreshIds(entries, episodicId, nameId, preferenceId)
    ensures var added := 1 + Indicator(MentionsName(userInput)) + Indicator(MentionsPreference(userInput));
      var e := AnalyzedEntries(entries, userInput, assistantResponse, userId, clock, episodicId, nameId, preferenceId);
      1 <= added <= 3 &&
      (|MatchingKeys(entries, [userId])| + added <= COUNT_CEILING ==>
        MemoryCount(e, userId) == MemoryCount(entries, userId) + added)
  {
    AnalyzedCounts(entries, userInput, assistantResponse, userId, clock, episodicId, nameId, preferenceId);
  }

  /** "My name is Sam", lower-cased. */
  lemma IntroductionLowered()
    ensures Lower("My name is Sam") == "my name is sam"
  {
  }

  /** Neither preference phrase occurs in "my name is sam". */
  lemma NoPreferencePhrase(pat: string)
    requires pat == LIKE_PHRASE || pat == PREFER_PHRASE
    ensures !Contains("my name is sam", pat)
  {
    var s := "my name is sam";
    forall j: nat | j + 1 < |s|
      ensures s[j] != 'i' || s[j + 1] != ' '
    {
    }
    forall j: nat | j + |pat| <= |s|
      ensures !OccursAt(s, pat, j)
    {
      assert s[j..j + |pat|][0] == s[j] && s[j..j + |pat|][1] == s[j + 1];
    }
  }

  /** The name the extractor reads out of "my name is sam". */
  lemma IntroducedName()
    ensures Contains("my name is sam", NAME_PHRASE)
    ensures Strip(SecondPiece("my name is sam", NAME_PHRASE)) == "sam"
  {
    var s := "my name is sam";
    assert OccursAt(s, NAME_PHRASE, 0);
    assert IndexOf(s, NAME_PHRASE) == Some(0);
    var r := SecondPiece(s, NAME_PHRASE);
    assert r == " sam";
    assert SkipSpaces(r, 0) == 1;
    assert TrimEnd(r, 4) == 4;
  }

  /** "My name is Sam" gives a name, "sam", and states no preference. */
  lemma IntroductionGivesName()
    ensures MentionsName("My name is Sam")
    ensures NameFact("My name is Sam") == "User's name is sam"
  {
    IntroductionLowered();
    IntroducedName();
  }

  lemma IntroductionStatesNoPreference()
    ensures !MentionsPreference("My name is Sam")
  {
    IntroductionLowered();
    NoPreferencePhrase(LIKE_PHRASE);
    NoPreferencePhrase(PREFER_PHRASE);
  }

  /**
   * A user with no records who says "My name is Sam" ends the turn with
   * two records: the episodic one and the semantic name fact.
   */
  lemma NameIntroductionCount(entries: map<Key, MemoryRecord>, userId: string, clock: TurnClock, a: string, b: string, c: string)
    requires FreshIds(entries, a, b, c) && MatchingKeys(entries, [userId]) == {}
    ensures MemoryCount(AnalyzedEntries(entries, "My name is Sam", "Nice to meet you, Sam!", userId, clock, a, b, c), userId) == 2
  {
    IntroductionGivesName();
    IntroductionStatesNoPreference();
    AnalyzedCount(entries, "My name is Sam", "Nice to meet you, Sam!", userId, clock, a, b, c);
  }

  lemma UnusedAfterInsert(entries: map<Key, MemoryRecord>, k: Key, v: MemoryRecord, id: string)
    requires Unused(entries, id) && k.id != id
    ensures Unused(entries[k := v], id)
  {
  }

  // ---------------------------------------------------------------------
  // The manager

  class MemoryManager {
    const store: Store

    ghost predicate Valid()
      reads this, store
    {
      AllFiled(store.entries)
    }

    constructor ()
      ensures Valid() && fresh(store) && store.entries == map[]
    {
      store := new Store();
    }

    /** `save_semantic_memory`: a new record under `(user_id, "semantic", context)`, keyed by a fresh id. */
    method SaveSemanticMemory(userId: string, facts: seq<string>, context: string, freshId: string, now: string)
      returns (memoryId: string)
      requires Valid() && Unused(store.entries, freshId)
      modifies store
      ensures Valid()
      ensures memoryId == freshId && SemanticKey(userId, context, memoryId) !in old(store.entries)
      ensures store.entries == old(store.entries)[SemanticKey(userId, context, memoryId) := SemanticRecord(facts, context, now)]
      ensures store.entries[SemanticKey(userId, context, memoryId)].searchableContent == Some(Join(" ", facts))
      ensures |MatchingKeys(store.entries, [userId])| == |MatchingKeys(old(store.entries), [userId])| + 1
    {
      memoryId := freshId;
      MatchingAfterInsert(store.entries, SemanticKey(userId, context, memoryId), SemanticRecord(facts, context, now), [userId]);
      store.Put([userId, SEMANTIC, context], memoryId, SemanticRecord(facts, context, now));
    }

    /**
     * `save_episodic_memory`: a new record under `(user_id, "episodic",
     * task_context)`; a missing input or response reads as "" and a
     * missing `success` as true.
     */
    method SaveEpisodicMemory(userId: string, interaction: Interaction, taskContext: string, freshId: string, now: string)
      returns (memoryId: string)
      requires Valid() && Unused(store.entries, freshId)
      modifies store
      ensures Valid()
      ensures memoryId == freshId && EpisodicKey(userId, taskContext, memoryId) !in old(store.entries)
      ensures store.entries == old(store.entries)[EpisodicKey(userId, taskContext, memoryId) := EpisodicRecord(interaction, taskContext, now)]
      ensures var m := store.entries[EpisodicKey(userId, taskContext, memoryId)];
        m.searchableContent == Some(interaction.userInput.GetOr("") + " " + interaction.assistantResponse.GetOr("")) &&
        m.success == Some(interaction.success.GetOr(true))
      ensures |MatchingKeys(store.entries, [userId])| == |MatchingKeys(old(store.entries), [userId])| + 1
    {
      memoryId := freshId;
      MatchingAfterInsert(store.entries, EpisodicKey(userId, taskContext, memoryId), EpisodicRecord(interaction, taskContext, now), [userId]);
      store.Put([userId, EPISODIC, taskContext], memoryId, EpisodicRecord(interaction, taskContext, now));
    }

    /** `save_procedural_memory`: upsert under `(user_id, "procedural")`, keyed by `context`. */
    method SaveProceduralMemory(userId: string, instructions: string, context: string, now: string)
      requires Valid()
      modifies store
      ensures Valid()
      ensures store.entries == old(store.entries)[ProceduralKey(userId, context) := ProceduralRecord(instructions, context, now)]
      ensures ProceduralFor(store.entries, userId, context) == {ProceduralKey(userId, context)}
      ensures store.entries[ProceduralKey(userId, context)].instructions == Some(instructions)
    {
      ProceduralOnePerContext(store.entries, userId, context, instructions, now);
      store.Put([userId, PROCEDURAL], context, ProceduralRecord(instructions, context, now));
    }

    /** The filter loop of the lexical stage: the scored candidates that pass the threshold, in order. */
    static method FilterByOverlap(qw: set<string>, candidates: seq<Item>) returns (filtered: seq<Scored>)
      ensures filtered == Relevant(qw, candidates)
    {
      ghost var scores := Scores(qw, candidates);
      filtered := [];
      for i := 0 to |candidates|
        invariant filtered == Kept(qw, candidates, scores, i)
      {
        var item := candidates[i];
        var overlap := Overlap(qw, item.value);
        ScoreOf(qw, candidates, i);
        KeptStep(qw, candidates, scores, i, overlap);
        if 10 * overlap > Max(|qw|, 1) {
          filtered := filtered + [Scored(item, overlap, i)];
        }
      }
    }

    /**
     * The lexical stage of `retrieve_relevant_memories`: score every
     * candidate by word overlap with the query, keep those above the 10%
     * threshold, sort them stably by decreasing overlap and take the first
     * `limit`.
     */
    static method Rerank(query: string, candidates: seq<Item>, limit: nat) returns (hits: seq<Item>, ranked: seq<Scored>)
      ensures IsRanking(QueryWords(query), candidates, ranked)
      ensures hits == Hits(ranked[..Min(limit, |ranked|)])
      ensures |hits| <= limit
      ensures forall j :: 0 <= j < |hits| ==>
        hits[j] in candidates && Passes(QueryWords(query), Overlap(QueryWords(query), hits[j].value))
      ensures forall i, j :: 0 <= i < j < |hits| ==>
        Overlap(QueryWords(query), hits[i].value) >= Overlap(QueryWords(query), hits[j].value)
    {
      var qw := QueryWords(query);
      var filtered := FilterByOverlap(qw, candidates);
      ranked := SortByRelevance(filtered);
      RankedHits(qw, candidates, ranked, limit);
      hits := Hits(ranked[..Min(limit, |ranked|)]);
    }

    /**
     * `retrieve_relevant_memories`. The store is searched for `2 * limit`
     * candidates; when more than `limit` come back, only those sharing
     * more than a tenth of the query's words are kept, best first (ties
     * in candidate order), and the first `limit` are returned; otherwise
     * the candidates are returned as they came.
     */
    method RetrieveRelevantMemories(userId: string, query: string, memoryType: Option<string>, limit: nat)
      returns (memories: seq<MemoryRecord>, ghost candidates: seq<Item>, ghost ranked: seq<Scored>)
      requires Valid()
      ensures SearchAnswer(store.entries, RetrievalPrefix(userId, memoryType), 2 * limit, candidates)
      ensures |candidates| <= limit ==> memories == Values(candidates)
      ensures |candidates| > limit ==>
        IsRanking(QueryWords(query), candidates, ranked) && memories == Values(Hits(ranked[..Min(limit, |ranked|)]))
      ensures |memories| <= limit
      ensures forall i :: 0 <= i < |memories| ==> StoredUnder(store.entries, [userId], memories[i])
      ensures memoryType.Some? && memoryType.value != "" ==>
        forall i :: 0 <= i < |memories| ==> memories[i].kind == memoryType
      ensures |candidates| > limit ==> forall i :: 0 <= i < |memories| ==>
        Passes(QueryWords(query), Overlap(QueryWords(query), memories[i]))
      ensures |candidates| > limit ==> forall i, j :: 0 <= i < j < |memories| ==>
        Overlap(QueryWords(query), memories[i]) >= Overlap(QueryWords(query), memories[j])
      ensures MatchingKeys(store.entries, [userId]) == {} ==> memories == []
      ensures |MatchingKeys(store.entries, RetrievalPrefix(userId, memoryType))| <= limit ==>
        forall k :: k in MatchingKeys(store.entries, RetrievalPrefix(userId, memoryType)) ==>
          store.entries[k] in memories
    {
      var prefix := RetrievalPrefix(userId, memoryType);
      var results := store.Search(prefix, 2 * limit);
      candidates := results;
      ranked := [];
      if |results| > limit {
        var sorted;
        results, sorted := Rerank(query, results, limit);
        ranked := sorted;
      }
      memories := Values(results);
      HitsStored(store.entries, userId, memoryType, 2 * limit, candidates, results);
      if MatchingKeys(store.entries, [userId]) == {} {
        NoneForUser(store.entries, userId, memoryType);
      }
      if |MatchingKeys(store.entries, prefix)| <= limit {
        SearchWithRoomReturnsAll(store.entries, prefix, limit, candidates);
      }
    }

    /** `format_memories_for_context`: the facts, interactions and instructions sections, one per line. */
    static method FormatMemoriesForContext(memories: seq<MemoryRecord>, dumps: seq<Interaction> -> string) returns (text: string)
      ensures text == FormattedContext(memories, dumps)
    {
      if memories == [] {
        return "";
      }
      var facts: seq<string> := [];
      var examples: seq<Interaction> := [];
      var rules: seq<string> := [];
      for i := 0 to |memories|
        invariant facts == FactsOf(memories[..i])
        invariant examples == InteractionsOf(memories[..i])
        invariant rules == RulesOf(memories[..i])
      {
        var m := memories[i];
        assert memories[..i + 1][..i] == memories[..i];
        if m.kind == Some(SEMANTIC) {
          facts := facts + m.facts.GetOr([]);
        } else if m.kind == Some(EPISODIC) {
          examples := examples + [m.interaction.GetOr(EmptyInteraction)];
        } else if m.kind == Some(PROCEDURAL) {
          rules := rules + [m.instructions.GetOr("")];
        }
      }
      assert memories[..|memories|] == memories;
      var parts: seq<string> := [];
      if facts != [] {
        parts := parts + ["Known facts: " + Join("; ", facts)];
      }
      if examples != [] {
        parts := parts + ["Past interactions: " + dumps(examples[..Min(3, |examples|)])];
      }
      if rules != [] {
        parts := parts + ["Instructions/Preferences: " + Join("; ", rules)];
      }
      assert parts == Sections(facts, examples, rules, dumps);
      text := Join("\n", parts);
    }

    /**
     * `analyze_and_save_memories`: always one episodic record of the turn,
     * then a semantic record for a stated name and one for a stated
     * preference.
     */
    method AnalyzeAndSaveMemories(userInput: string, assistantResponse: string, userId: string, clock: TurnClock,
                                  episodicId: string, nameId: string, preferenceId: string)
      requires Valid() && FreshIds(store.entries, episodicId, nameId, preferenceId)
      modifies store
      ensures Valid()
      ensures store.entries == AnalyzedEntries(old(store.entries), userInput, assistantResponse, userId, clock,
                                               episodicId, nameId, preferenceId)
      ensures var added := 1 + Indicator(MentionsName(userInput)) + Indicator(MentionsPreference(userInput));
        |MatchingKeys(old(store.entries), [userId])| + added <= COUNT_CEILING ==>
          MemoryCount(store.entries, userId) == MemoryCount(old(store.entries), userId) + added
    {
      ghost var before := store.entries;
      AnalyzedCount(before, userInput, assistantResponse, userId, clock, episodicId, nameId, preferenceId);
      var interaction := TurnInteraction(userInput, assistantResponse, clock.turn);
      var _ := SaveEpisodicMemory(userId, interaction, GENERAL, episodicId, clock.episodic);
      ghost var e1 := store.entries;
      UnusedAfterInsert(before, EpisodicKey(userId, GENERAL, episodicId), e1[EpisodicKey(userId, GENERAL, episodicId)], nameId);
      UnusedAfterInsert(before, EpisodicKey(userId, GENERAL, episodicId), e1[EpisodicKey(userId, GENERAL, episodicId)], preferenceId);
      var lowered := Lower(userInput);
      if Contains(lowered, NAME_PHRASE) {
        var nameFact := Strip(SecondPiece(lowered, NAME_PHRASE));
        var _ := SaveSemanticMemory(userId, ["User's name is " + nameFact], GENERAL, nameId, clock.name);
        UnusedAfterInsert(e1, SemanticKey(userId, GENERAL, nameId), store.entries[SemanticKey(userId, GENERAL, nameId)], preferenceId);
      }
      if Contains(lowered, LIKE_PHRASE) || Contains(lowered, PREFER_PHRASE) {
        var preference := Strip(userInput);
        var _ := SaveSemanticMemory(userId, ["User preference: " + preference], GENERAL, preferenceId, clock.preference);
      }
    }

    /** `get_memory_count`: the size of a search of `(user_id,)` capped at 1000. */
    method GetMemoryCount(userId: string) returns (count: nat)
      ensures count == MemoryCount(store.entries, userId)
      ensures count <= COUNT_CEILING
      ensures count < COUNT_CEILING ==> count == |MatchingKeys(store.entries, [userId])|
    {
      var items := store.Search([userId], COUNT_CEILING);
      count := |items|;
    }
  }

  // ---------------------------------------------------------------------
  // Two sessions of a fresh manager

  /** A fact saved for a new user is what a retrieval for that user brings back. */
  method RecallSavedName(freshId: string, now: string) returns (memories: seq<MemoryRecord>)
    ensures memories == [SemanticRecord(["User's name is Ana"], GENERAL, now)]
  {
    var manager := new MemoryManager();
    var _ := manager.SaveSemanticMemory("u1", ["User's name is Ana"], GENERAL, freshId, now);
    assert |MatchingKeys(manager.store.entries, ["u1"])| == 1;
    ghost var candidates, ranked;
    memories, candidates, ranked := manager.RetrieveRelevantMemories("u1", "name", None, 5);
  }

  /** One turn that gives a name leaves a new user with two records. */
  method IntroductionCount(clock: TurnClock, episodicId: string, nameId: string, preferenceId: string) returns (count: nat)
    requires episodicId != nameId && episodicId != preferenceId && nameId != preferenceId
    ensures count == 2
  {
    var manager := new MemoryManager();
    NameIntroductionCount(manager.store.entries, "u2", clock, episodicId, nameId, preferenceId);
    manager.AnalyzeAndSaveMemories("My name is Sam", "Nice to meet you, Sam!", "u2", clock, episodicId, nameId, preferenceId);
    count := manager.GetMemoryCount("u2");
  }
}
