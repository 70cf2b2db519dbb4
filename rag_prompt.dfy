/** The prompt sent to the generative model: the fixed template of
    `ragTemplateStr` filled in, as `fmt.Sprintf` does, with the user's query
    and the retrieved texts joined by newlines. */
module RagPrompt {
  import Strings

  // `PromptHead()` is the text of `ragTemplateStr` (cmd/rag/rag.go:143-156)
  // up to its first `%s`, the query slot; `PromptMiddle()` lies between the
  // two slots and `PromptTail()` follows the second. `RagTemplate()` puts
  // them together as the one template constant. The head is written in eight
  // short pieces, each with its own lemma that it holds no `%`, only because
  // the verifier checks a short string literal character by character far
  // more cheaply than one long one.
  function HeadPart1(): string {
    "\n" +
    "I will ask you a question " +
    "and will provide some " +
    "additional context " +
    "information.\n"
  }
  function HeadPart2(): string {
    "Extract key details such " +
    "as skills, experience, " +
    "education, and " +
    "qualifications.\n" +
    "[NEVER SKIP THIS CONTEXT]\n"
  }
  function HeadPart3(): string {
    "Respond to specific " +
    "questions based on the " +
    "document.\n" +
    "Provide precise and " +
    "contextual answers using "
  }
  function HeadPart4(): string {
    "only the information " +
    "available.\n" +
    "If a question cannot be " +
    "answered from the " +
    "document, reply with:\n"
  }
  function HeadPart5(): string {
    "\"The provided document " +
    "does not contain enough " +
    "information to answer " +
    "that question. Please " +
    "reach out or explore at "
  }
  function HeadPart6(): string {
    "[github link from text], " +
    "[Linkedin github link " +
    "from text] profiles\"\n" +
    "\n" +
    "Restrictions:\n"
  }
  function HeadPart7(): string {
    " - Context-Only " +
    "Responses: Use only the " +
    "provided document\U{2014}do not " +
    "generate or assume " +
    "missing details.\n"
  }
  function HeadPart8(): string {
    " - Concise and Clear: " +
    "Keep responses clear and " +
    "to the point.\n" +
    "\n" +
    "Question:\n"
  }
  function HeadFirstHalf(): string {
    HeadPart1() + HeadPart2() + HeadPart3() + HeadPart4()
  }
  function HeadSecondHalf(): string {
    HeadPart5() + HeadPart6() + HeadPart7() + HeadPart8()
  }
  function PromptHead(): string {
    HeadFirstHalf() + HeadSecondHalf()
  }

  function PromptMiddle(): string {
    "\n\nContext:\n"
  }

  function PromptTail(): string {
    "\n"
  }

  /** `ragTemplateStr`: the fixed instructions, a `%s` slot for the query and
      one for the retrieved context. */
  function RagTemplate(): string {
    PromptHead() + ("%s" + (PromptMiddle() + ("%s" + PromptTail())))
  }

  /** The prompt for `query` and the retrieved `contents`: the instructions,
      the query as given, the context heading, and the texts one per line. */
  function Prompt(query: string, contents: seq<string>): string {
    PromptHead() + (query + (PromptMiddle() + (Strings.Join(contents, "\n") + PromptTail())))
  }

  /** `fmt.Sprintf(ragTemplateStr, query, strings.Join(contents, "\n"))`. */
  method BuildPrompt(query: string, contents: seq<string>) returns (prompt: string)
    ensures prompt == Prompt(query, contents)
  {
    prompt := Strings.Sprintf(RagTemplate(), [query, Strings.Join(contents, "\n")]);
    PromptLayout(query, contents);
  }

  lemma HeadPart1HasNoVerb()
    ensures '%' !in HeadPart1()
  {
  }

  lemma HeadPart2HasNoVerb()
    ensures '%' !in HeadPart2()
  {
  }

  lemma HeadPart3HasNoVerb()
    ensures '%' !in HeadPart3()
  {
  }

  lemma HeadPart4HasNoVerb()
    ensures '%' !in HeadPart4()
  {
  }

  lemma HeadPart5HasNoVerb()
    ensures '%' !in HeadPart5()
  {
  }

  lemma HeadPart6HasNoVerb()
    ensures '%' !in HeadPart6()
  {
  }

  lemma HeadPart7HasNoVerb()
    ensures '%' !in HeadPart7()
  {
  }

  lemma HeadPart8HasNoVerb()
    ensures '%' !in HeadPart8()
  {
  }

  lemma HeadFirstHalfHasNoVerb()
    ensures '%' !in HeadFirstHalf()
  {
    HeadPart1HasNoVerb();
    HeadPart2HasNoVerb();
    HeadPart3HasNoVerb();
    HeadPart4HasNoVerb();
  }

  lemma HeadSecondHalfHasNoVerb()
    ensures '%' !in HeadSecondHalf()
  {
    HeadPart5HasNoVerb();
    HeadPart6HasNoVerb();
    HeadPart7HasNoVerb();
    HeadPart8HasNoVerb();
  }

  /** Outside its two slots the template holds no `%`. */
  lemma TemplateTextHasNoVerbs()
    ensures '%' !in PromptHead() && '%' !in PromptMiddle() && '%' !in PromptTail()
  {
    HeadFirstHalfHasNoVerb();
    HeadSecondHalfHasNoVerb();
  }

  /** Filling the template puts the query verbatim in the first slot, even
      when it holds `%s`, and the texts joined by newlines in the second. */
  lemma PromptLayout(query: string, contents: seq<string>)
    ensures Strings.Sprintf(RagTemplate(), [query, Strings.Join(contents, "\n")]) == Prompt(query, contents)
  {
    TemplateTextHasNoVerbs();
    Strings.TwoSlots(PromptHead(), PromptMiddle(), PromptTail(), query, Strings.Join(contents, "\n"));
  }
}
