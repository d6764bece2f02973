/**
 * The text protocol between the analyst and the model's reply: a reply is
 * either an explanation (it starts with the EXPLANATION: marker), SQL pulled
 * out of a ```sql fence, a ```SQL fence or a bare SELECT statement, or
 * something the analyst cannot use. Rules are tried in a fixed order and the
 * first that applies wins.
 */
module ResponseParser {
  import opened Wrappers
  import opened Text

  const LowerOpen: string := "```sql"
  const UpperOpen: string := "```SQL"
  const Fence: string := "```"
  const SelectToken: string := "SELECT"
  const ExplanationMarker: string := "EXPLANATION:"

  /** What the analyst makes of a reply. */
  datatype Parsed =
    | Explanation(text: string)   // shown as is, marker included
    | Sql(sql: string)            // non-empty, stripped SQL text
    | Unrecognized(raw: string)   // "could not extract", with the raw reply

  /**
   * The fenced text that starts at `start` (just past an opener): up to the
   * next ``` at or after `start`, or to the end when there is none, stripped.
   */
  function FenceBody(reply: string, start: nat): (r: string)
    requires start <= |reply|
  {
    var end := Find(reply, Fence, start);
    if end != -1 then Strip(reply[start..end]) else Strip(reply[start..])
  }

  /**
   * The SQL candidate, `None` when no rule applies. It may be `Some("")`, which
   * the analyst treats like `None`.
   */
  function ExtractSql(reply: string): (r: Option<string>)
  {
    var lower := Find(reply, LowerOpen, 0);
    if lower != -1 then Some(FenceBody(reply, lower + |LowerOpen|)) else UpperOrSelect(reply)
  }

  /** The rules tried when no ```sql opener occurs. */
  function UpperOrSelect(reply: string): (r: Option<string>)
  {
    var upper := Find(reply, UpperOpen, 0);
    if upper != -1 then Some(FenceBody(reply, upper + |UpperOpen|)) else SelectRule(reply)
  }

  /** The last rule: a stripped reply that starts with SELECT is taken whole. */
  function SelectRule(reply: string): (r: Option<string>)
  {
    if StartsWith(Strip(reply), SelectToken) then Some(Strip(reply)) else None
  }

  /** Classification of a reply: the explanation marker first, then a non-empty SQL candidate. */
  function Classify(reply: string): (r: Parsed)
    ensures r.Explanation? <==> StartsWith(Strip(reply), ExplanationMarker)
    ensures r.Explanation? ==> r.text == reply
    ensures r.Unrecognized? ==> r.raw == reply
    ensures r.Sql? ==> r.sql != "" && ExtractSql(reply) == Some(r.sql)
    ensures r.Unrecognized? <==> !r.Explanation? && ExtractSql(reply) in {None, Some("")}
  {
    if StartsWith(Strip(reply), ExplanationMarker) then Explanation(reply)
    else
      match ExtractSql(reply)
      case Some(sql) => if sql != "" then Sql(sql) else Unrecognized(reply)
      case None => Unrecognized(reply)
  }

  /** The first rule: a ```sql opener anywhere decides the candidate. */
  lemma ExtractByLowerFence(reply: string, lower: nat)
    requires Find(reply, LowerOpen, 0) == lower
    ensures lower + |LowerOpen| <= |reply|
    ensures ExtractSql(reply) == Some(FenceBody(reply, lower + |LowerOpen|))
  {
    LowerRule(reply, lower, FenceBody(reply, lower + |LowerOpen|));
  }

  /*
   * LowerRule and UpperRule state the same step as their callers, with the
   * fence body passed in as a named value. The solver then treats the body as
   * one term instead of unfolding FenceBody while it unfolds ExtractSql, which
   * keeps these steps cheap on every solver seed.
   */
  lemma LowerRule(reply: string, lower: nat, body: string)
    requires Find(reply, LowerOpen, 0) == lower
    requires body == FenceBody(reply, lower + |LowerOpen|)
    ensures ExtractSql(reply) == Some(body)
  {
  }

  /** A candidate that is not an explanation is SQL exactly when it is non-empty. */
  lemma ClassifyCandidate(reply: string, sql: string)
    requires !StartsWith(Strip(reply), ExplanationMarker)
    requires ExtractSql(reply) == Some(sql)
    ensures Classify(reply) == if sql != "" then Sql(sql) else Unrecognized(reply)
  {
  }

  /**
   * Lower-case fence, closed: the SQL is what lies between the first ```sql
   * and the next ``` after it, stripped.
   */
  lemma LowerFenceClosed(reply: string, i: nat, j: nat)
    requires IsFirst(reply, LowerOpen, i)
    requires IsNextAfter(reply, Fence, i + |LowerOpen|, j)
    ensures ExtractSql(reply) == Some(Strip(reply[i + |LowerOpen|..j]))
  {
    FindIsNext(reply, LowerOpen, 0, i);
    FindIsNext(reply, Fence, i + |LowerOpen|, j);
  }

  /** Lower-case fence, never closed: the SQL is everything after the opener, stripped. */
  lemma LowerFenceUnclosed(reply: string, i: nat)
    requires IsFirst(reply, LowerOpen, i)
    requires NoneAfter(reply, Fence, i + |LowerOpen|)
    ensures ExtractSql(reply) == Some(Strip(reply[i + |LowerOpen|..]))
  {
    FindIsNext(reply, LowerOpen, 0, i);
    FindNone(reply, Fence, i + |LowerOpen|);
  }

  /** The upper-case fence is read the same way, but only when no ```sql occurs anywhere. */
  lemma UpperFenceClosed(reply: string, i: nat, j: nat)
    requires !Contains(reply, LowerOpen)
    requires IsFirst(reply, UpperOpen, i)
    requires IsNextAfter(reply, Fence, i + |UpperOpen|, j)
    ensures ExtractSql(reply) == Some(Strip(reply[i + |UpperOpen|..j]))
  {
    FindIsNext(reply, UpperOpen, 0, i);
    FindIsNext(reply, Fence, i + |UpperOpen|, j);
  }

  lemma UpperFenceUnclosed(reply: string, i: nat)
    requires !Contains(reply, LowerOpen)
    requires IsFirst(reply, UpperOpen, i)
    requires NoneAfter(reply, Fence, i + |UpperOpen|)
    ensures ExtractSql(reply) == Some(Strip(reply[i + |UpperOpen|..]))
  {
    FindIsNext(reply, UpperOpen, 0, i);
    FindNone(reply, Fence, i + |UpperOpen|);
  }

  /**
   * The bare-SELECT rule applies only when neither fence occurs; it is
   * case-sensitive and yields the whole stripped reply.
   */
  lemma NoFenceMeansSelectRule(reply: string)
    requires !Contains(reply, LowerOpen) && !Contains(reply, UpperOpen)
    ensures ExtractSql(reply).Some? <==> StartsWith(Strip(reply), SelectToken)
    ensures ExtractSql(reply).Some? ==> ExtractSql(reply).value == Strip(reply)
  {
  }

  /**
   * Fence precedence: once a ```sql opener occurs, nothing before the first
   * one matters — not an upper-case fence, not a leading SELECT.
   */
  lemma {:induction false} TextBeforeLowerFenceIgnored(reply: string, i: nat)
    requires IsFirst(reply, LowerOpen, i)
    ensures ExtractSql(reply) == ExtractSql(reply[i..])
  {
    FindIsNext(reply, LowerOpen, 0, i);
    OccursInSuffix(reply, LowerOpen, i, 0);
    FindIsNext(reply[i..], LowerOpen, 0, 0);
    ExtractByLowerFence(reply, i);
    ExtractByLowerFence(reply[i..], 0);
    FenceBodyOfSuffix(reply, i, |LowerOpen|);
  }

  /** Reading a fence body in a suffix of the reply gives the body read in the reply itself. */
  lemma FenceBodyOfSuffix(reply: string, d: nat, start: nat)
    requires d + start <= |reply|
    ensures FenceBody(reply[d..], start) == FenceBody(reply, d + start)
  {
    var tail := reply[d..];
    FindInSuffix(reply, Fence, d, start);
    var end := Find(reply, Fence, d + start);
    assert tail == reply[d..|reply|];
    if end != -1 {
      SliceOfSlice(reply, d, |reply|, start, end - d - start);
    } else {
      SliceOfSlice(reply, d, |reply|, start, |reply| - d - start);
    }
  }

  /** The opener after `prefix` is the first, when none starts inside `prefix`. */
  lemma {:induction false} FirstOpenerAfterPrefix(prefix: string, open: string, rest: string)
    requires forall j :: 0 <= j < |prefix| ==> !OccursAt(prefix + open, open, j)
    ensures IsFirst(prefix + open + rest, open, |prefix|)
  {
    var reply := prefix + open + rest;
    assert reply == (prefix + open) + rest;
    OccursInPrefix(prefix + open, rest, open, |prefix|);
    assert (prefix + open)[|prefix|..] == open;
    forall k | 0 <= k < |prefix|
      ensures !OccursAt(reply, open, k)
    {
      OccursInPrefix(prefix + open, rest, open, k);
    }
  }

  /** The fence after `body` is the next one after `lead`, when none starts inside `body`. */
  lemma {:induction false} NextFenceAfterBody(lead: string, body: string, suffix: string)
    requires forall j :: 0 <= j < |body| ==> !OccursAt(body + Fence, Fence, j)
    ensures IsNextAfter(lead + body + Fence + suffix, Fence, |lead|, |lead| + |body|)
  {
    var reply := lead + body + Fence + suffix;
    var d := |lead|;
    assert reply[d..] == (body + Fence) + suffix;
    OccursInSuffix(reply, Fence, d, |body|);
    OccursInPrefix(body + Fence, suffix, Fence, |body|);
    assert (body + Fence)[|body|..] == Fence;
    forall k | d <= k < d + |body|
      ensures !OccursAt(reply, Fence, k)
    {
      OccursInSuffix(reply, Fence, d, k - d);
      OccursInPrefix(body + Fence, suffix, Fence, k - d);
    }
  }

  /** The SQL candidate of a reply with a first ```sql opener and a closed fence. */
  lemma {:induction false} ClosedFenceCandidate(reply: string, prefix: string, body: string, suffix: string)
    requires reply == prefix + LowerOpen + body + Fence + suffix
    requires forall j :: 0 <= j < |prefix| ==> !OccursAt(prefix + LowerOpen, LowerOpen, j)
    requires forall j :: 0 <= j < |body| ==> !OccursAt(body + Fence, Fence, j)
    ensures ExtractSql(reply) == Some(Strip(body))
  {
    var lead := prefix + LowerOpen;
    assert reply == prefix + LowerOpen + (body + Fence + suffix);
    FirstOpenerAfterPrefix(prefix, LowerOpen, body + Fence + suffix);
    NextFenceAfterBody(lead, body, suffix);
    PieceOfConcat(lead, body, Fence + suffix);
    assert lead + body + (Fence + suffix) == reply;
    LowerFenceClosed(reply, |prefix|, |lead| + |body|);
  }

  lemma PieceOfConcat(a: string, b: string, c: string)
    ensures (a + b + c)[|a|..|a| + |b|] == b
  {
  }

  /**
   * The reply shape `prefix + "```sql" + body + "```" + suffix`, where this
   * opener is the first one and `body` holds no fence: the outcome is
   * `Sql(strip(body))`, whatever `prefix` and `suffix` hold, or "could not
   * extract" when the body is blank.
   */
  lemma {:induction false} ClosedFenceReply(prefix: string, body: string, suffix: string)
    requires forall j :: 0 <= j < |prefix| ==> !OccursAt(prefix + LowerOpen, LowerOpen, j)
    requires forall j :: 0 <= j < |body| ==> !OccursAt(body + Fence, Fence, j)
    requires !StartsWith(Strip(prefix + LowerOpen + body + Fence + suffix), ExplanationMarker)
    ensures var reply := prefix + LowerOpen + body + Fence + suffix;
      Classify(reply) == if Strip(body) != "" then Sql(Strip(body)) else Unrecognized(reply)
  {
    var reply := prefix + LowerOpen + body + Fence + suffix;
    ClosedFenceCandidate(reply, prefix, body, suffix);
    ClassifyCandidate(reply, Strip(body));
  }

  /** The SQL candidate of a reply with a first ```sql opener and no closing fence. */
  lemma {:induction false} UnclosedFenceCandidate(reply: string, prefix: string, body: string)
    requires reply == prefix + LowerOpen + body
    requires forall j :: 0 <= j < |prefix| ==> !OccursAt(prefix + LowerOpen, LowerOpen, j)
    requires forall j :: 0 <= j <= |body| ==> !OccursAt(body, Fence, j)
    ensures ExtractSql(reply) == Some(Strip(body))
  {
    var i := |prefix|;
    var start := i + |LowerOpen|;
    FirstOpenerAfterPrefix(prefix, LowerOpen, body);
    assert reply[start..] == body;
    forall k | start <= k <= |reply|
      ensures !OccursAt(reply, Fence, k)
    {
      OccursInSuffix(reply, Fence, start, k - start);
    }
    LowerFenceUnclosed(reply, i);
  }

  /**
   * The reply `prefix + "```sql" + body` with no closing fence: the outcome is
   * `Sql(strip(body))`, not an error.
   */
  lemma {:induction false} UnclosedFenceReply(prefix: string, body: string)
    requires forall j :: 0 <= j < |prefix| ==> !OccursAt(prefix + LowerOpen, LowerOpen, j)
    requires forall j :: 0 <= j <= |body| ==> !OccursAt(body, Fence, j)
    requires !StartsWith(Strip(prefix + LowerOpen + body), ExplanationMarker)
    ensures var reply := prefix + LowerOpen + body;
      Classify(reply) == if Strip(body) != "" then Sql(Strip(body)) else Unrecognized(reply)
  {
    var reply := prefix + LowerOpen + body;
    UnclosedFenceCandidate(reply, prefix, body);
    ClassifyCandidate(reply, Strip(body));
  }

  /** Stripping a slice of `s` gives a stripped slice of `s`. */
  lemma {:induction false} StripOfSlice(s: string, a: nat, b: nat)
    requires a <= b <= |s|
    ensures IsStripped(Strip(s[a..b]))
    ensures OccursAt(s, Strip(s[a..b]), a + StripStart(s[a..b]))
  {
    var piece := s[a..b];
    StripIsSlice(piece);
    SliceOfSlice(s, a, b, StripStart(piece), |Strip(piece)|);
  }

  /** A fenced body is a stripped slice of the reply. */
  lemma {:induction false} FenceBodyIsSlice(reply: string, start: nat)
    requires start <= |reply|
    ensures IsStripped(FenceBody(reply, start))
    ensures exists k: nat :: OccursAt(reply, FenceBody(reply, start), k)
  {
    var end := Find(reply, Fence, start);
    if end != -1 {
      StripOfSlice(reply, start, end);
    } else {
      assert reply[start..] == reply[start..|reply|];
      StripOfSlice(reply, start, |reply|);
    }
  }

  /**
   * Whatever is extracted as SQL is stripped and is a contiguous slice of the
   * reply: extraction never invents text.
   */
  lemma {:induction false} ExtractedSqlIsSliceOfReply(reply: string)
    requires Classify(reply).Sql?
    ensures IsStripped(Classify(reply).sql)
    ensures exists k: nat :: OccursAt(reply, Classify(reply).sql, k)
  {
    CandidateIsSliceOfReply(reply);
  }

  /** Every candidate, empty or not, is a stripped slice of the reply. */
  lemma {:induction false} CandidateIsSliceOfReply(reply: string)
    requires ExtractSql(reply).Some?
    ensures IsStripped(ExtractSql(reply).value)
    ensures exists k: nat :: OccursAt(reply, ExtractSql(reply).value, k)
  {
    var lower := Find(reply, LowerOpen, 0);
    var upper := Find(reply, UpperOpen, 0);
    if lower != -1 {
      ExtractByLowerFence(reply, lower);
      FenceBodyIsSlice(reply, lower + |LowerOpen|);
    } else if upper != -1 {
      ExtractByUpperFence(reply, upper);
      FenceBodyIsSlice(reply, upper + |UpperOpen|);
    } else {
      WholeReplyIsSlice(reply);
    }
  }

  lemma ExtractByUpperFence(reply: string, upper: nat)
    requires Find(reply, LowerOpen, 0) == -1
    requires Find(reply, UpperOpen, 0) == upper
    ensures upper + |UpperOpen| <= |reply|
    ensures ExtractSql(reply) == Some(FenceBody(reply, upper + |UpperOpen|))
  {
    UpperRule(reply, upper, FenceBody(reply, upper + |UpperOpen|));
  }

  lemma UpperRule(reply: string, upper: nat, body: string)
    requires Find(reply, LowerOpen, 0) == -1
    requires Find(reply, UpperOpen, 0) == upper
    requires body == FenceBody(reply, upper + |UpperOpen|)
    ensures ExtractSql(reply) == Some(body)
  {
  }

  lemma WholeReplyIsSlice(reply: string)
    ensures IsStripped(Strip(reply)) && OccursAt(reply, Strip(reply), StripStart(reply))
  {
    assert reply[0..|reply|] == reply;
    StripOfSlice(reply, 0, |reply|);
  }

  // Worked replies, each fixing one edge of the rules.

  /** A body without backticks holds no fence, even against the closing one. */
  lemma {:induction false} TicklessBody(body: string)
    requires '`' !in body
    ensures forall j :: 0 <= j < |body| ==> !OccursAt(body + Fence, Fence, j)
  {
    var s := body + Fence;
    forall j | 0 <= j < |body|
      ensures !OccursAt(s, Fence, j)
    {
      assert s[j] == body[j];
      if j + |Fence| <= |s| {
        assert s[j..j + |Fence|][0] == s[j];
      }
    }
  }

  /** Without a lower-case 's', no ```sql opener starts inside `prefix`. */
  lemma {:induction false} NoLowerSInPrefix(prefix: string)
    requires 's' !in prefix
    ensures forall j :: 0 <= j < |prefix| ==> !OccursAt(prefix + LowerOpen, LowerOpen, j)
  {
    var s := prefix + LowerOpen;
    forall j | 0 <= j < |prefix|
      ensures !OccursAt(s, LowerOpen, j)
    {
      var c := if j + 3 < |prefix| then prefix[j + 3] else LowerOpen[j + 3 - |prefix|];
      assert s[j + 3] == c;
      assert c != 's';
      assert s[j..j + |LowerOpen|][3] == s[j + 3];
    }
  }

  /** A reply that opens with a backtick is never an explanation. */
  lemma {:induction false} TickLeadIsNoExplanation(reply: string)
    requires reply != [] && reply[0] == '`'
    ensures !StartsWith(Strip(reply), ExplanationMarker)
  {
    StripKeepsFirst(reply);
  }

  /** A first and last character outside the white space make a stripped string. */
  lemma SolidEnds(s: string)
    requires s != [] && !IsSpace(s[0]) && !IsSpace(s[|s| - 1])
    ensures Strip(s) == s
  {
    StripOfStripped(s);
  }

  /** Without backticks neither fence occurs, and only the SELECT rule can apply. */
  lemma UnfencedReply(reply: string)
    requires '`' !in reply
    ensures ExtractSql(reply) == if StartsWith(Strip(reply), SelectToken) then Some(Strip(reply)) else None
  {
    AbsentLead(reply, LowerOpen);
    AbsentLead(reply, UpperOpen);
  }

  /**
   * A reply that is SELECT followed by text without backticks, ending in a
   * visible character, is SQL: the whole reply.
   */
  lemma {:induction false} UnfencedSelectReply(reply: string, rest: string)
    requires reply == SelectToken + rest
    requires '`' !in rest && (rest == [] || !IsSpace(rest[|rest| - 1]))
    ensures Classify(reply) == Sql(reply)
  {
    SelectReplyShape(reply, rest);
    SolidEnds(reply);
    UnfencedReply(reply);
    ClassifyCandidate(reply, reply);
  }

  lemma SelectReplyShape(reply: string, rest: string)
    requires reply == SelectToken + rest
    requires '`' !in rest && (rest == [] || !IsSpace(rest[|rest| - 1]))
    ensures '`' !in reply
    ensures reply != [] && !IsSpace(reply[0]) && !IsSpace(reply[|reply| - 1])
    ensures StartsWith(reply, SelectToken) && !StartsWith(reply, ExplanationMarker)
  {
    forall c | c in reply ensures c != '`' {
      assert c in SelectToken || c in rest;
    }
    assert reply[..|SelectToken|] == SelectToken;
    if rest != [] {
      assert reply[|reply| - 1] == rest[|rest| - 1];
    }
  }

  /** A bare SELECT with no fence and no marker is SQL. */
  lemma BareSelectReply(r: string)
    requires r == "SELECT 1"
    ensures Classify(r) == Sql(r)
  {
    UnfencedSelectReply(r, " 1");
  }

  /**
   * A reply without backticks whose first character is visible and is neither
   * the `S` of SELECT nor the `E` of the marker matches no rule.
   */
  lemma {:induction false} NoRuleApplies(reply: string)
    requires '`' !in reply
    requires reply != [] && !IsSpace(reply[0]) && reply[0] != SelectToken[0] && reply[0] != ExplanationMarker[0]
    ensures Classify(reply) == Unrecognized(reply)
  {
    UnfencedReply(reply);
    StripKeepsFirst(reply);
  }

  /** The SELECT rule is case-sensitive. */
  lemma LowerCaseSelectReply(r: string)
    requires r == "select 1"
    ensures Classify(r) == Unrecognized(r)
  {
    PlainLead(r);
    NoRuleApplies(r);
  }

  /** A refusal with no marker, no fence and no SELECT yields no candidate and cannot be used. */
  lemma PlainRefusalReply(r: string)
    requires r == "I cannot answer this."
    ensures ExtractSql(r) == None
    ensures Classify(r) == Unrecognized(r)
  {
    PlainLead(r);
    UnfencedReply(r);
    StripKeepsFirst(r);
    NoRuleApplies(r);
  }

  lemma PlainLead(r: string)
    requires r == "select 1" || r == "I cannot answer this."
    ensures '`' !in r && r != [] && !IsSpace(r[0]) && r[0] != SelectToken[0] && r[0] != ExplanationMarker[0]
  {
  }

  /** An empty fence yields the empty candidate, which counts as nothing. */
  lemma EmptyFenceReply()
    ensures ExtractSql("```sql```") == Some("")
    ensures Classify("```sql```") == Unrecognized("```sql```")
  {
    assert "```sql```" == "" + LowerOpen + "" + Fence + "";
    ClosedFenceCandidate("```sql```", "", "", "");
    TickLeadIsNoExplanation("```sql```");
  }

  /** The marker wins over a fence that follows it. */
  lemma MarkerBeforeFenceReply()
    ensures var r := "EXPLANATION: no\n```sql\nSELECT 1\n```";
      Classify(r) == Explanation(r)
  {
    var r := "EXPLANATION: no\n```sql\nSELECT 1\n```";
    SolidEnds(r);
    assert r[..|ExplanationMarker|] == ExplanationMarker;
  }

  /**
   * The reply the prompt asks for: a stripped, backtick-free query on its own
   * line between a ```sql opener and a closing fence is extracted exactly.
   */
  lemma {:induction false} FencedLineReply(r: string, core: string)
    requires r == LowerOpen + "\n" + core + "\n" + Fence
    requires core != "" && IsStripped(core) && '`' !in core
    ensures Classify(r) == Sql(core)
  {
    var body := "\n" + core + "\n";
    assert r == "" + LowerOpen + body + Fence + "";
    TicklessBody(body);
    StripSurrounded("\n", core, "\n");
    TickLeadIsNoExplanation(r);
    ClosedFenceReply("", body, "");
  }

  /** A marker inside a fence is not at the start of the reply: it is extracted as SQL. */
  lemma MarkerInsideFenceReply(r: string, core: string)
    requires core == "EXPLANATION: no"
    requires r == LowerOpen + "\n" + core + "\n" + Fence
    ensures Classify(r) == Sql(core)
  {
    PlainMarkerLine(core);
    FencedLineReply(r, core);
  }

  lemma PlainMarkerLine(core: string)
    requires core == "EXPLANATION: no"
    ensures core != "" && IsStripped(core) && '`' !in core
  {
    assert core[0] == 'E' && core[|core| - 1] == 'o';
  }

  /** An empty ```sql fence shadows a usable ```SQL fence before it. */
  lemma EmptyLowerFenceShadowsUpperReply()
    ensures var r := "```SQL SELECT 1``` ```sql```";
      Classify(r) == Unrecognized(r)
  {
    var prefix := "```SQL SELECT 1``` ";
    var r := "```SQL SELECT 1``` ```sql```";
    assert r == prefix + LowerOpen + "" + Fence + "";
    NoLowerSInPrefix(prefix);
    TicklessBody("");
    TickLeadIsNoExplanation(r);
    ClosedFenceReply(prefix, "", "");
  }

  /** The typical reply: fenced SQL on its own lines. */
  lemma FencedAverageReply(r: string, query: string)
    requires query == "SELECT AVG(salary) FROM data"
    requires r == LowerOpen + "\n" + query + "\n" + Fence
    ensures Classify(r) == Sql(query)
  {
    PlainQuery(query);
    FencedLineReply(r, query);
  }

  lemma PlainQuery(query: string)
    requires query == "SELECT AVG(salary) FROM data"
    ensures query != "" && IsStripped(query) && '`' !in query
  {
    assert query[0] == 'S' && query[|query| - 1] == 'a';
  }
}
