/**
 The query loop: each input line is stripped; a blank line asks again, "q"
 in either case ends the session, and anything else is searched for.
 */
module Shell {
  import opened Text

  /** What the loop does with one input line. */
  datatype Command = Reprompt | Quit | Query(text: string)

  /** `str.lower()` on one character, restricted to ASCII letters. */
  function LowerChar(c: char): (l: char)
    ensures 'A' <= c <= 'Z' ==> 'a' <= l <= 'z' && l as int - c as int == 32
    ensures !('A' <= c <= 'Z') ==> l == c
  {
    if 'A' <= c <= 'Z' then (c as int + 32) as char else c
  }

  function Lower(s: string): (r: string)
    ensures |r| == |s|
    ensures forall k :: 0 <= k < |s| ==> r[k] == LowerChar(s[k])
  {
    if s == [] then [] else [LowerChar(s[0])] + Lower(s[1..])
  }

  /** Decides what to do with one input line; a query is never empty and never longer than its line. */
  function Classify(line: string): (c: Command)
    ensures c.Query? ==> c.text != [] && |c.text| <= |line|
  {
    var query := Strip(line);
    if query == [] then Reprompt
    else if Lower(query) == "q" then Quit
    else Query(query)
  }

  /**
   A blank line re-prompts, "q" or "Q" with any surrounding whitespace quits,
   and every other line is searched for in its stripped form.
   */
  lemma ClassifySpec(line: string)
    ensures Classify(line) == Reprompt <==> AllSpace(line)
    ensures Classify(line) == Quit <==> Strip(line) == "q" || Strip(line) == "Q"
    ensures Classify(line).Query? ==> Classify(line).text == Strip(line)
  {
    StripSpec(line);
  }

  /** A query is already in the form it would be classified in: asking again gives the same query. */
  lemma QueryStable(line: string)
    requires Classify(line).Query?
    ensures Classify(Classify(line).text) == Classify(line)
  {
    StripIdempotent(line);
  }

  /** Surrounding whitespace never changes what a line means. */
  lemma ClassifyIgnoresPadding(a: string, line: string, b: string)
    requires AllSpace(a) && AllSpace(b)
    ensures Classify(a + line + b) == Classify(line)
  {
    StripPadding(a, line, b);
  }

  /**
   The queries the loop passes to search for a sequence of input lines: the
   non-blank lines before the first quit, stripped, in order. The end of the
   input ends the loop as well.
   */
  function Issued(inputs: seq<string>): (queries: seq<string>)
    ensures |queries| <= |inputs|
  {
    if inputs == [] then []
    else
      match Classify(inputs[0])
      case Reprompt => Issued(inputs[1..])
      case Quit => []
      case Query(q) => [q] + Issued(inputs[1..])
  }

  /** Runs the loop over the given input lines and returns the queries it searches for, in order. */
  method Session(inputs: seq<string>) returns (queries: seq<string>)
    ensures queries == Issued(inputs)
  {
    queries := [];
    var i := 0;
    while i < |inputs|
      invariant i <= |inputs|
      invariant queries + Issued(inputs[i..]) == Issued(inputs)
    {
      var command := Classify(inputs[i]);
      IssuedStep(inputs, i);
      match command {
        case Reprompt =>
        case Quit =>
          assert queries + [] == queries;
          return;
        case Query(query) =>
          assert queries + ([query] + Issued(inputs[i + 1..])) == (queries + [query]) + Issued(inputs[i + 1..]);
          queries := queries + [query];
      }
      i := i + 1;
    }
  }

  /** One turn of the loop: what line `i` contributes, followed by what the rest contributes. */
  lemma IssuedStep(inputs: seq<string>, i: nat)
    requires i < |inputs|
    ensures Issued(inputs[i..]) == match Classify(inputs[i])
      case Reprompt => Issued(inputs[i + 1..])
      case Quit => []
      case Query(q) => [q] + Issued(inputs[i + 1..])
  {
    assert inputs[i..][0] == inputs[i] && inputs[i..][1..] == inputs[i + 1..];
  }

  /** Every search is for a stripped, non-blank line that is not the quit command. */
  lemma {:induction false} IssuedAreQueries(inputs: seq<string>, n: nat)
    requires n < |Issued(inputs)|
    ensures Issued(inputs)[n] != [] && Strip(Issued(inputs)[n]) == Issued(inputs)[n]
    ensures Issued(inputs)[n] != "q" && Issued(inputs)[n] != "Q"
  {
    var line := inputs[0];
    match Classify(line)
    case Reprompt =>
      IssuedAreQueries(inputs[1..], n);
    case Quit =>
    case Query(q) =>
      if n == 0 {
        ClassifySpec(line);
        StripSpec(line);
        StripIdempotent(line);
      } else {
        assert Issued(inputs)[n] == Issued(inputs[1..])[n - 1];
        IssuedAreQueries(inputs[1..], n - 1);
      }
  }

  /** No line of `inputs` is the quit command. */
  predicate NoQuit(inputs: seq<string>) {
    forall k :: 0 <= k < |inputs| ==> Classify(inputs[k]) != Quit
  }

  /** Lines without a quit pass their queries on and let the loop carry on with what follows. */
  lemma {:induction false} IssuedConcat(inputs: seq<string>, rest: seq<string>)
    requires NoQuit(inputs)
    ensures Issued(inputs + rest) == Issued(inputs) + Issued(rest)
  {
    if inputs != [] {
      assert (inputs + rest)[0] == inputs[0];
      assert (inputs + rest)[1..] == inputs[1..] + rest;
      assert Classify(inputs[0]) != Quit;
      assert forall k :: 0 <= k < |inputs[1..]| ==> inputs[1..][k] == inputs[k + 1];
      IssuedConcat(inputs[1..], rest);
    } else {
      assert inputs + rest == rest;
    }
  }

  /**
   No query is dropped: a query line read before any quit is searched for, as
   the query that follows those issued by the lines before it.
   */
  lemma IssuedAt(inputs: seq<string>, i: nat)
    requires i < |inputs| && NoQuit(inputs[..i]) && Classify(inputs[i]).Query?
    ensures |Issued(inputs[..i])| < |Issued(inputs)|
    ensures Issued(inputs)[|Issued(inputs[..i])|] == Classify(inputs[i]).text
  {
    assert inputs == inputs[..i] + inputs[i..];
    IssuedConcat(inputs[..i], inputs[i..]);
    IssuedStep(inputs, i);
  }

  /**
   Nothing is searched for that was not typed: the n-th search comes from a
   query line that no quit precedes, and the lines before it issued n searches.
   */
  lemma {:induction false} IssuedOrigin(inputs: seq<string>, n: nat) returns (i: nat)
    requires n < |Issued(inputs)|
    ensures i < |inputs| && NoQuit(inputs[..i])
    ensures Classify(inputs[i]) == Query(Issued(inputs)[n])
    ensures |Issued(inputs[..i])| == n
  {
    var first := [inputs[0]];
    var c := Classify(inputs[0]);
    assert c != Quit;
    assert inputs == first + inputs[1..];
    IssuedConcat(first, inputs[1..]);
    if c.Query? && n == 0 {
      i := 0;
      assert inputs[..0] == [];
    } else {
      var m := if c.Query? then n - 1 else n;
      assert Issued(inputs)[n] == Issued(inputs[1..])[m];
      var i' := IssuedOrigin(inputs[1..], m);
      i := i' + 1;
      assert inputs[..i] == first + inputs[1..][..i'];
      assert inputs[i] == inputs[1..][i'];
      IssuedConcat(first, inputs[1..][..i']);
    }
  }

  /** Once a quit has been read, no later line is ever looked at. */
  lemma {:induction false} QuitEndsSession(inputs: seq<string>, later: seq<string>)
    requires exists i :: 0 <= i < |inputs| && Classify(inputs[i]) == Quit
    ensures Issued(inputs + later) == Issued(inputs)
  {
    assert (inputs + later)[0] == inputs[0];
    assert (inputs + later)[1..] == inputs[1..] + later;
    if Classify(inputs[0]) != Quit {
      var i :| 0 <= i < |inputs| && Classify(inputs[i]) == Quit;
      assert inputs[1..][i - 1] == inputs[i];
      QuitEndsSession(inputs[1..], later);
    }
  }
}
