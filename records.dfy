/**
 * The memory records the manager writes into the store, as the Python
 * dictionaries they are: every key read with `.get(...)` is optional.
 */
module Records {
  import opened Wrappers
  import opened Text

  const SEMANTIC := "semantic"
  const EPISODIC := "episodic"
  const PROCEDURAL := "procedural"
  /** The default `context` / `task_context` of the three save operations. */
  const GENERAL := "general"

  /**
   * The `interaction` dictionary of an episodic memory. Timestamps are
   * opaque strings (the ISO text of `datetime.now()`).
   */
  datatype Interaction = Interaction(
    userInput: Option<string>,
    assistantResponse: Option<string>,
    timestamp: Option<string>,
    success: Option<bool>)

  /** `{}`, the default of `memory.get("interaction", {})`. */
  const EmptyInteraction := Interaction(None, None, None, None)

  /** A memory record: the value a store item holds. Field `kind` is the dictionary's `"type"`. */
  datatype MemoryRecord = MemoryRecord(
    kind: Option<string>,
    facts: Option<seq<string>>,
    interaction: Option<Interaction>,
    instructions: Option<string>,
    searchableContent: Option<string>,
    timestamp: Option<string>,
    context: Option<string>,
    success: Option<bool>)

  /** The searchable text of an interaction: user input, one space, assistant response. */
  function EpisodicContent(i: Interaction): string {
    i.userInput.GetOr("") + " " + i.assistantResponse.GetOr("")
  }

  /** The record `save_semantic_memory` writes. */
  function SemanticRecord(facts: seq<string>, context: string, now: string): MemoryRecord
  {
    MemoryRecord(Some(SEMANTIC), Some(facts), None, None, Some(Join(" ", facts)), Some(now), Some(context), None)
  }

  /** The record `save_episodic_memory` writes; `success` defaults to true. */
  function EpisodicRecord(interaction: Interaction, taskContext: string, now: string): MemoryRecord
  {
    MemoryRecord(Some(EPISODIC), None, Some(interaction), None, Some(EpisodicContent(interaction)),
           Some(now), Some(taskContext), Some(interaction.success.GetOr(true)))
  }

  /** The record `save_procedural_memory` writes. */
  function ProceduralRecord(instructions: string, context: string, now: string): MemoryRecord
  {
    MemoryRecord(Some(PROCEDURAL), None, None, Some(instructions), Some(instructions), Some(now), Some(context), None)
  }

  /**
   * The text the lexical filter reads: `searchable_content`, or, when that
   * is missing or empty, the type-specific payload.
   */
  function ContentOf(m: MemoryRecord): string
  {
    var content := m.searchableContent.GetOr("");
    if content != "" then content
    else if m.kind == Some(SEMANTIC) then Join(" ", m.facts.GetOr([]))
    else if m.kind == Some(EPISODIC) then EpisodicContent(m.interaction.GetOr(EmptyInteraction))
    else if m.kind == Some(PROCEDURAL) then m.instructions.GetOr("")
    else ""
  }

  /**
   * The fallback never changes what the filter reads for a record one of
   * the three save operations wrote: it is always the stored `searchable_content`.
   */
  lemma ContentOfSavedRecord(facts: seq<string>, interaction: Interaction, instructions: string, context: string, now: string)
    ensures ContentOf(SemanticRecord(facts, context, now)) == Join(" ", facts)
    ensures ContentOf(EpisodicRecord(interaction, context, now)) == EpisodicContent(interaction)
    ensures ContentOf(ProceduralRecord(instructions, context, now)) == instructions
  {
  }
}
