/**
 * The instruction pair sent to the model: a fixed system text stating the
 * answer format the parser relies on, and a user text built from the
 * dataset's column names, their type names, a CSV sample and the question.
 */
module PromptBuilder {
  import opened Text
  import ResponseParser

  /** The name the dataset is registered under with the SQL engine. */
  const TableName: string := "data_df"

  /** The two reply shapes the prompt asks for, as written in its lines. */
  const FencedSql: string := "```sql```"
  const ExplanationPrefix: string := "EXPLANATION:"

  /** The system text, one line per rule. */
  const Intro: string := "You are an expert SQL analyst. Your task is to generate SQL queries for data analysis.\n"
  const RulesLabel: string := "Rules:\n"
  const FenceRuleLead: string := "1) Always return a valid SQL query enclosed in "
  const FenceRule: string := FenceRuleLead + FencedSql + " fences\n"
  const TableRuleLead: string := "2) The table name is "
  const TableRule: string := TableRuleLead + "'" + TableName + "'" + "\n"
  const ExplanationRuleLead: string := "3) If the question cannot be answered with SQL, provide an "
  const ExplanationRule: string := ExplanationRuleLead + ExplanationPrefix + " prefix instead\n"
  const PureSqlRule: string := "4) Never include markdown formatting in SQL blocks, just the pure SQL\n"
  const ClarityRule: string := "5) Optimize for clarity and correctness\n"

  const SystemPrompt: string :=
    Intro + RulesLabel + FenceRule + TableRule + ExplanationRule + PureSqlRule + ClarityRule

  /** The fixed parts of the user text. */
  const ColumnsLabel: string := "Dataset Info:\nColumns: "
  const TypesLabel: string := "\nData Types: "
  const SampleLabel: string := "\n\nSample Data:\n"
  const QuestionTag: string := "User Question: "
  const QuestionLabel: string := "\n\n" + QuestionTag
  const ClosingLead: string := "\n\nGenerate a SQL query or provide an explanation. Return in "
  const ClosingInstruction: string :=
    ClosingLead + FencedSql + " fences or start with " + ExplanationPrefix

  const ListSeparator: string := ", "

  /** One `name(dtype)` entry per column, pairing names and types as `zip` does. */
  function TypedColumns(names: seq<string>, dtypes: seq<string>): (r: seq<string>)
    ensures |r| == if |names| <= |dtypes| then |names| else |dtypes|
    ensures forall i :: 0 <= i < |r| ==> r[i] == names[i] + "(" + dtypes[i] + ")"
  {
    var n := if |names| <= |dtypes| then |names| else |dtypes|;
    seq(n, i requires 0 <= i < n => names[i] + "(" + dtypes[i] + ")")
  }

  /** The user text: schema, sample, the question, and the closing instruction. */
  function UserMessage(names: seq<string>, dtypes: seq<string>, sample: string, question: string): (r: string)
  {
    ColumnsLabel + Join(names, ListSeparator)
    + TypesLabel + Join(TypedColumns(names, dtypes), ListSeparator)
    + SampleLabel + sample
    + QuestionLabel + question
    + ClosingInstruction
  }

  datatype Prompt = Prompt(system: string, user: string)

  function BuildPrompt(names: seq<string>, dtypes: seq<string>, sample: string, question: string): (p: Prompt)
    ensures p.system == SystemPrompt
  {
    Prompt(SystemPrompt, UserMessage(names, dtypes, sample, question))
  }

  /** The prompt's fence and marker are the parser's: ```sql opens the fence it asks for. */
  lemma PromptTokensAreParserTokens()
    ensures StartsWith(FencedSql, ResponseParser.LowerOpen)
    ensures ExplanationPrefix == ResponseParser.ExplanationMarker
  {
    assert FencedSql[..|ResponseParser.LowerOpen|] == ResponseParser.LowerOpen;
  }

  /** The system text asks for the ```sql fence the parser looks for first. */
  lemma {:induction false} SystemPromptNamesFence()
    ensures Contains(SystemPrompt, ResponseParser.LowerOpen)
  {
    PromptTokensAreParserTokens();
    var open := ResponseParser.LowerOpen;
    assert OccursAt(FencedSql, open, 0);
    OccursInMiddle(FenceRuleLead, FencedSql, " fences\n", open, 0);
    RegroupRules(SystemPrompt, Intro, RulesLabel, FenceRule, TableRule, ExplanationRule, PureSqlRule, ClarityRule);
    OccursInMiddle(Intro + RulesLabel, FenceRule, TableRule + ExplanationRule + PureSqlRule + ClarityRule,
      open, |FenceRuleLead|);
    ContainsIff(SystemPrompt, open);
  }

  /** The system text names the table as 'data_df'. */
  lemma {:induction false} SystemPromptNamesTable()
    ensures Contains(SystemPrompt, "'" + TableName + "'")
  {
    var quoted := "'" + TableName + "'";
    SelfOccurs(quoted);
    assert TableRule == TableRuleLead + quoted + "\n";
    OccursInMiddle(TableRuleLead, quoted, "\n", quoted, 0);
    RegroupRules(SystemPrompt, Intro, RulesLabel, FenceRule, TableRule, ExplanationRule, PureSqlRule, ClarityRule);
    OccursInMiddle(Intro + RulesLabel + FenceRule, TableRule, ExplanationRule + PureSqlRule + ClarityRule,
      quoted, |TableRuleLead|);
    ContainsIff(SystemPrompt, quoted);
  }

  /** The system text offers the EXPLANATION: marker the parser gives precedence to. */
  lemma {:induction false} SystemPromptNamesMarker()
    ensures Contains(SystemPrompt, ResponseParser.ExplanationMarker)
  {
    PromptTokensAreParserTokens();
    SelfOccurs(ExplanationPrefix);
    OccursInMiddle(ExplanationRuleLead, ExplanationPrefix, " prefix instead\n", ExplanationPrefix, 0);
    RegroupRules(SystemPrompt, Intro, RulesLabel, FenceRule, TableRule, ExplanationRule, PureSqlRule, ClarityRule);
    OccursInMiddle(Intro + RulesLabel + FenceRule + TableRule, ExplanationRule, PureSqlRule + ClarityRule,
      ExplanationPrefix, |ExplanationRuleLead|);
    ContainsIff(SystemPrompt, ExplanationPrefix);
  }

  /**
   * Every column name is in the user text, in order, with nothing dropped:
   * name `i` sits at a fixed offset after the columns label, and the names
   * are separated by ", ".
   */
  lemma {:induction false} EveryColumnListed(names: seq<string>, dtypes: seq<string>, sample: string, question: string, i: nat)
    requires i < |names|
    ensures OccursAt(UserMessage(names, dtypes, sample, question), names[i],
      |ColumnsLabel| + JoinOffset(names, ListSeparator, i))
  {
    JoinContainsAt(names, ListSeparator, i);
    InSecondPart(UserMessage(names, dtypes, sample, question), ColumnsLabel, Join(names, ListSeparator), TypesLabel,
      Join(TypedColumns(names, dtypes), ListSeparator), SampleLabel, sample, QuestionLabel, question, ClosingInstruction,
      names[i], JoinOffset(names, ListSeparator, i));
  }

  /** Column names follow each other in the text in the order of the dataset. */
  lemma ColumnsInOrder(names: seq<string>, i: nat, j: nat)
    requires i < j < |names|
    ensures JoinOffset(names, ListSeparator, i) + |names[i]| < JoinOffset(names, ListSeparator, j)
  {
    JoinOffsetMonotone(names, ListSeparator, i, j);
  }

  /**
   * With one type per column, the "Data Types" list has one `name(dtype)`
   * entry for every column, and each is in the user text.
   */
  lemma {:induction false} EveryTypedColumnListed(names: seq<string>, dtypes: seq<string>, sample: string, question: string, i: nat)
    requires |dtypes| == |names|
    requires i < |names|
    ensures |TypedColumns(names, dtypes)| == |names|
    ensures OccursAt(UserMessage(names, dtypes, sample, question), names[i] + "(" + dtypes[i] + ")",
      |ColumnsLabel| + |Join(names, ListSeparator)| + |TypesLabel| + JoinOffset(TypedColumns(names, dtypes), ListSeparator, i))
  {
    var typed := TypedColumns(names, dtypes);
    JoinContainsAt(typed, ListSeparator, i);
    InFourthPart(UserMessage(names, dtypes, sample, question), ColumnsLabel, Join(names, ListSeparator), TypesLabel,
      Join(typed, ListSeparator), SampleLabel, sample, QuestionLabel, question, ClosingInstruction,
      typed[i], JoinOffset(typed, ListSeparator, i));
  }

  /** The question appears verbatim after "User Question: ", followed only by the closing instruction. */
  lemma {:induction false} QuestionVerbatim(names: seq<string>, dtypes: seq<string>, sample: string, question: string)
    ensures EndsWith(UserMessage(names, dtypes, sample, question), QuestionTag + question + ClosingInstruction)
  {
    var user := UserMessage(names, dtypes, sample, question);
    var cols := Join(names, ListSeparator);
    var typed := Join(TypedColumns(names, dtypes), ListSeparator);
    Regroup(user, ColumnsLabel, cols, TypesLabel, typed, SampleLabel, sample, QuestionLabel, question, ClosingInstruction);
    QuestionTail(user, ColumnsLabel + cols + TypesLabel + typed + SampleLabel + sample, question, ClosingInstruction);
  }

  lemma QuestionTail(user: string, lead: string, question: string, close: string)
    requires user == lead + QuestionLabel + (question + close)
    ensures EndsWith(user, QuestionTag + question + close)
  {
    SuffixAfterTag(user, lead, "\n\n", QuestionTag, question, close);
  }

  /** The user text opens with the dataset header and the full column list. */
  lemma {:induction false} UserMessageStartsWithColumns(names: seq<string>, dtypes: seq<string>, sample: string, question: string)
    ensures StartsWith(UserMessage(names, dtypes, sample, question), ColumnsLabel + Join(names, ListSeparator) + TypesLabel)
  {
    var cols := Join(names, ListSeparator);
    var typed := Join(TypedColumns(names, dtypes), ListSeparator);
    Regroup(UserMessage(names, dtypes, sample, question), ColumnsLabel, cols, TypesLabel, typed, SampleLabel, sample,
      QuestionLabel, question, ClosingInstruction);
    var lead := ColumnsLabel + cols + TypesLabel;
    assert StartsWith(lead + (typed + SampleLabel + sample + QuestionLabel + question + ClosingInstruction), lead);
  }

  /** The closing instruction restates both reply shapes the parser accepts. */
  lemma {:induction false} ClosingInstructionStatesProtocol()
    ensures OccursAt(ClosingInstruction, ResponseParser.LowerOpen, |ClosingLead|)
    ensures OccursAt(ClosingInstruction, ResponseParser.ExplanationMarker,
      |ClosingInstruction| - |ResponseParser.ExplanationMarker|)
  {
    PromptTokensAreParserTokens();
    var rest := " fences or start with " + ExplanationPrefix;
    assert ClosingInstruction == ClosingLead + FencedSql + rest;
    OccursInMiddle(ClosingLead, FencedSql, rest, ResponseParser.LowerOpen, 0);
    var lead := ClosingLead + FencedSql + " fences or start with ";
    assert ClosingInstruction == lead + ExplanationPrefix + "";
    OccursInMiddle(lead, ExplanationPrefix, "", ExplanationPrefix, 0);
  }

  /** The groupings of the system text's seven parts that the lemmas above use. */
  lemma RegroupRules(m: string, a1: string, a2: string, a3: string, a4: string, a5: string, a6: string, a7: string)
    requires m == a1 + a2 + a3 + a4 + a5 + a6 + a7
    ensures m == (a1 + a2) + a3 + (a4 + a5 + a6 + a7)
    ensures m == (a1 + a2 + a3) + a4 + (a5 + a6 + a7)
    ensures m == (a1 + a2 + a3 + a4) + a5 + (a6 + a7)
  {
  }

  /** The groupings of the user text's nine parts that the lemmas above use. */
  lemma Regroup(m: string, a1: string, a2: string, a3: string, a4: string, a5: string, a6: string, a7: string, a8: string, a9: string)
    requires m == a1 + a2 + a3 + a4 + a5 + a6 + a7 + a8 + a9
    ensures m == a1 + a2 + (a3 + a4 + a5 + a6 + a7 + a8 + a9)
    ensures m == (a1 + a2 + a3) + a4 + (a5 + a6 + a7 + a8 + a9)
    ensures m == (a1 + a2 + a3) + (a4 + a5 + a6 + a7 + a8 + a9)
    ensures m == (a1 + a2 + a3 + a4 + a5 + a6) + a7 + (a8 + a9)
  {
  }

  /** An occurrence in the second of nine parts is one in the whole, after the first. */
  lemma InSecondPart(m: string, a1: string, a2: string, a3: string, a4: string, a5: string, a6: string, a7: string,
                     a8: string, a9: string, p: string, k: nat)
    requires m == a1 + a2 + a3 + a4 + a5 + a6 + a7 + a8 + a9
    requires OccursAt(a2, p, k)
    ensures OccursAt(m, p, |a1| + k)
  {
    Regroup(m, a1, a2, a3, a4, a5, a6, a7, a8, a9);
    OccursInMiddle(a1, a2, a3 + a4 + a5 + a6 + a7 + a8 + a9, p, k);
  }

  /** An occurrence in the fourth of nine parts is one in the whole, after the first three. */
  lemma InFourthPart(m: string, a1: string, a2: string, a3: string, a4: string, a5: string, a6: string, a7: string,
                     a8: string, a9: string, p: string, k: nat)
    requires m == a1 + a2 + a3 + a4 + a5 + a6 + a7 + a8 + a9
    requires OccursAt(a4, p, k)
    ensures OccursAt(m, p, |a1| + |a2| + |a3| + k)
  {
    Regroup(m, a1, a2, a3, a4, a5, a6, a7, a8, a9);
    OccursInMiddle(a1 + a2 + a3, a4, a5 + a6 + a7 + a8 + a9, p, k);
  }

  /** A text `lead + x + tag + q + c` ends with `tag + q + c`. */
  lemma SuffixAfterTag(m: string, lead: string, x: string, tag: string, q: string, c: string)
    requires m == lead + (x + tag) + (q + c)
    ensures EndsWith(m, tag + q + c)
  {
    assert m == (lead + x) + (tag + q + c);
  }
}
