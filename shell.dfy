/** The question loop of `main`: each line read from standard input is
    trimmed; a line equal to `bye` in any case, or the end of input, ends the
    loop; a blank line is skipped; any other line is sent to
    `GenerateRagResponse`, and the loop goes on whether or not that fails. */
module Shell {
  import opened Wrappers
  import Strings
  import Rag

  /** What one input line is, once trimmed. */
  datatype Line = Bye | Blank | Query(q: string)

  /** Why the loop ended. */
  datatype Exit = EndOfInput | SaidBye

  predicate IsBye(line: string) {
    Strings.EqualFold(Strings.TrimSpace(line), "bye")
  }

  /** The test order of the loop body: `bye` first, then blank. */
  function Classify(line: string): (c: Line)
    ensures c.Bye? <==> IsBye(line)
    ensures c.Blank? <==> !IsBye(line) && Strings.TrimSpace(line) == ""
    ensures c.Query? ==> c.q == Strings.TrimSpace(line) && c.q != [] && !Strings.EqualFold(c.q, "bye")
  {
    var userQuery := Strings.TrimSpace(line);
    if Strings.EqualFold(userQuery, "bye") then Bye
    else if userQuery == "" then Blank
    else Query(userQuery)
  }

  /** The queries the loop sends, in order, for the input `lines`: blank
      lines are skipped and the first `bye` stops everything. */
  function Forwarded(lines: seq<string>): seq<string> {
    if lines == [] then []
    else
      match Classify(lines[0])
      case Bye => []
      case Blank => Forwarded(lines[1..])
      case Query(q) => [q] + Forwarded(lines[1..])
  }

  /** The index of the first `bye` line, or `|lines|` when there is none. */
  function FirstBye(lines: seq<string>): (k: nat)
    ensures k <= |lines|
    ensures forall i :: 0 <= i < k ==> !IsBye(lines[i])
    ensures k < |lines| ==> IsBye(lines[k])
  {
    if lines == [] || IsBye(lines[0]) then 0 else 1 + FirstBye(lines[1..])
  }

  // ---------------------------------------------------------------------
  // A reference definition: the non-blank trimmed lines
  // ---------------------------------------------------------------------

  /** One line's contribution to the reference filter. */
  function Kept1(line: string): seq<string> {
    if Strings.TrimSpace(line) == "" then [] else [Strings.TrimSpace(line)]
  }

  /** The trimmed lines of `lines` that are not blank, in order (built from
      the end, independently of `Forwarded`). */
  function Kept(lines: seq<string>): (r: seq<string>)
    ensures |r| <= |lines|
  {
    if lines == [] then [] else Kept(lines[..|lines| - 1]) + Kept1(lines[|lines| - 1])
  }

  lemma {:induction false} KeptCons(line: string, rest: seq<string>)
    ensures Kept([line] + rest) == Kept1(line) + Kept(rest)
    decreases |rest|
  {
    if rest == [] {
      assert ([line] + rest)[..0] == [];
    } else {
      var lines := [line] + rest;
      assert lines[..|lines| - 1] == [line] + rest[..|rest| - 1];
      KeptCons(line, rest[..|rest| - 1]);
    }
  }

  /** Everything the reference filter keeps is trimmed and non-blank. */
  lemma {:induction false} KeptTrimmed(lines: seq<string>)
    ensures forall j :: 0 <= j < |Kept(lines)| ==>
      Kept(lines)[j] != [] && Strings.TrimSpace(Kept(lines)[j]) == Kept(lines)[j]
  {
    if lines != [] {
      KeptTrimmed(lines[..|lines| - 1]);
      Strings.TrimIdempotent(lines[|lines| - 1], Strings.Whitespace);
    }
  }

  /** A line that is not a `bye` is forwarded as the reference filter keeps it. */
  lemma ForwardedCons(lines: seq<string>)
    requires lines != [] && !IsBye(lines[0])
    ensures Forwarded(lines) == Kept1(lines[0]) + Forwarded(lines[1..])
  {
  }

  lemma PrefixCons(lines: seq<string>, k: nat)
    requires k < |lines|
    ensures lines[..k + 1] == [lines[0]] + lines[1..][..k]
  {
  }

  /** The forwarded queries are exactly the non-blank trimmed lines before
      the first `bye` line. */
  lemma {:induction false} ForwardedBeforeBye(lines: seq<string>)
    ensures Forwarded(lines) == Kept(lines[..FirstBye(lines)])
  {
    if lines == [] {
    } else if IsBye(lines[0]) {
      assert lines[..0] == [];
    } else {
      var rest := lines[1..];
      var k := FirstBye(rest);
      ForwardedBeforeBye(rest);
      ForwardedCons(lines);
      PrefixCons(lines, k);
      KeptCons(lines[0], rest[..k]);
    }
  }

  /** No forwarded query is blank, untrimmed or a `bye`, and there are no
      more of them than lines before the first `bye`. */
  lemma ForwardedQueries(lines: seq<string>)
    ensures |Forwarded(lines)| <= FirstBye(lines)
    ensures forall j :: 0 <= j < |Forwarded(lines)| ==>
      Forwarded(lines)[j] != [] &&
      Strings.TrimSpace(Forwarded(lines)[j]) == Forwarded(lines)[j] &&
      !Strings.EqualFold(Forwarded(lines)[j], "bye")
  {
    ForwardedBeforeBye(lines);
    KeptTrimmed(lines[..FirstBye(lines)]);
    ForwardedNoBye(lines);
  }

  lemma {:induction false} ForwardedNoBye(lines: seq<string>)
    ensures forall j :: 0 <= j < |Forwarded(lines)| ==> !Strings.EqualFold(Forwarded(lines)[j], "bye")
  {
    if lines != [] {
      ForwardedNoBye(lines[1..]);
    }
  }

  /** Lines after a `bye` line are never looked at. */
  lemma {:induction false} AfterBye(before: seq<string>, bye: string, after: seq<string>)
    requires IsBye(bye)
    ensures Forwarded(before + [bye] + after) == Forwarded(before + [bye])
  {
    if before == [] {
      assert (before + [bye] + after)[0] == bye;
    } else {
      assert (before + [bye] + after)[1..] == before[1..] + [bye] + after;
      assert (before + [bye])[1..] == before[1..] + [bye];
      AfterBye(before[1..], bye, after);
    }
  }

  lemma ByeLine()
    ensures Strings.TrimSpace("  BYE ") == "BYE" && IsBye("  BYE ")
  {
    assert Strings.TrimLeft("BYE ", Strings.Whitespace) == "BYE ";
    assert Strings.TrimLeft(" BYE ", Strings.Whitespace) == "BYE ";
    assert Strings.TrimLeft("  BYE ", Strings.Whitespace) == "BYE ";
    assert Strings.TrimRight("BYE", Strings.Whitespace) == "BYE";
    assert Strings.TrimRight("BYE ", Strings.Whitespace) == "BYE";
    assert Strings.EqualFold("E", "e");
    assert Strings.EqualFold("YE", "ye");
  }

  lemma QueryLine()
    ensures Classify("skills?") == Query("skills?")
  {
    assert Strings.TrimLeft("skills?", Strings.Whitespace) == "skills?";
    assert Strings.TrimRight("skills?", Strings.Whitespace) == "skills?";
  }

  lemma BlankLine()
    ensures Classify("") == Blank
  {
    assert Strings.Trim("", Strings.Whitespace) == "";
  }

  /** `bye` is recognised in any case and with surrounding blanks, and the
      loop stops there. */
  lemma ByeAnyCase()
    ensures Forwarded(["skills?", "", "  BYE ", "education?"]) == ["skills?"]
  {
    var lines := ["skills?", "", "  BYE ", "education?"];
    QueryLine();
    BlankLine();
    ByeLine();
    assert lines[1..] == ["", "  BYE ", "education?"];
    assert lines[1..][1..] == ["  BYE ", "education?"];
    assert Forwarded(lines[1..][1..]) == [];
  }

  // ---------------------------------------------------------------------
  // The loop
  // ---------------------------------------------------------------------

  /** What the loop body's tests on line `n`, read before any `bye`, mean
      for the first `bye` and for the queries sent so far. */
  lemma LineStep(lines: seq<string>, n: nat, userQuery: string)
    requires n < |lines| && n <= FirstBye(lines)
    requires userQuery == Strings.TrimSpace(lines[n])
    ensures Strings.EqualFold(userQuery, "bye") ==> n == FirstBye(lines)
    ensures !Strings.EqualFold(userQuery, "bye") ==>
      n + 1 <= FirstBye(lines) &&
      Kept(lines[..n + 1]) == Kept(lines[..n]) + (if userQuery == "" then [] else [userQuery])
  {
    assert lines[..n + 1][..n] == lines[..n];
  }

  /** The replies `answer` gives to `queries`, one each, in order. */
  function Replies(answer: string -> Result<string>, queries: seq<string>): (r: seq<Result<string>>)
    ensures |r| == |queries|
  {
    if queries == [] then []
    else Replies(answer, queries[..|queries| - 1]) + [answer(queries[|queries| - 1])]
  }

  lemma RepliesSnoc(answer: string -> Result<string>, queries: seq<string>, q: string)
    ensures Replies(answer, queries + [q]) == Replies(answer, queries) + [answer(q)]
  {
    assert (queries + [q])[..|queries|] == queries;
  }

  /** Reply `j` is the answer to query `j`. */
  lemma {:induction false} RepliesAt(answer: string -> Result<string>, queries: seq<string>)
    ensures forall j :: 0 <= j < |queries| ==> Replies(answer, queries)[j] == answer(queries[j])
  {
    if queries != [] {
      RepliesAt(answer, queries[..|queries| - 1]);
    }
  }

  /** The input loop of `main` over the lines `lines` of standard input.
      `queries` are the calls made to `GenerateRagResponse` and `replies`
      what each returned; an error is reported and the loop goes on. */
  method RunShell(lines: seq<string>, s: Rag.Services)
    returns (queries: seq<string>, replies: seq<Result<string>>, exit: Exit)
    ensures queries == Forwarded(lines)
    ensures |replies| == |queries|
    ensures forall j :: 0 <= j < |replies| ==> replies[j] == Rag.RagAnswer(s, queries[j])
    ensures exit == (if FirstBye(lines) < |lines| then SaidBye else EndOfInput)
  {
    ghost var ask := (q: string) => Rag.RagAnswer(s, q);
    queries, replies := [], [];
    var n := 0;
    while true
      invariant n <= FirstBye(lines)
      invariant queries == Kept(lines[..n])
      invariant replies == Replies(ask, queries)
      decreases |lines| - n
    {
      if n == |lines| {
        exit := EndOfInput;
        break;
      }
      var userQuery := Strings.TrimSpace(lines[n]);
      LineStep(lines, n, userQuery);
      if Strings.EqualFold(userQuery, "bye") {
        exit := SaidBye;
        break;
      }
      if userQuery != "" {
        var answer := Rag.GenerateRagResponse(s, userQuery);
        RepliesSnoc(ask, queries, userQuery);
        replies := replies + [answer];
        queries := queries + [userQuery];
      }
      n := n + 1;
    }
    ForwardedBeforeBye(lines);
    RepliesAt(ask, queries);
  }
}
