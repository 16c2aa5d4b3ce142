/**
 `validate_results`: the judge of a collections chat transcript. It scans the
 agent's replies for banned words (compliance) and counts the turns that
 show empathy, returning both instead of printing them.
 */
module CollectionJudge {
  import opened Text

  /** One exchange of the transcript: `{"user": ..., "ai": ...}`. */
  datatype Turn = Turn(user: string, ai: string)

  /** `breach_words`. */
  const BreachWords: seq<string> := ["police", "jail", "sue"]

  /** The words whose presence marks a reply as empathetic. */
  const EmpathyWords: seq<string> := ["sorry", "understand", "hardship"]

  /** `any(w in text for w in words)`: some word of `words` occurs
      somewhere in `text`, whole word or not. */
  predicate MentionsAny(text: string, words: seq<string>) {
    |words| > 0 && (Contains(text, words[0]) || MentionsAny(text, words[1..]))
  }

  /** The lower-cased reply contains a banned word. */
  predicate Breaches(reply: string) {
    MentionsAny(Lower(reply), BreachWords)
  }

  /** The lower-cased reply contains an empathy word. */
  predicate ShowsEmpathy(reply: string) {
    MentionsAny(Lower(reply), EmpathyWords)
  }

  /** No reply among the first `n` turns breaches. */
  ghost predicate CompliantUpTo(history: seq<Turn>, n: int) {
    forall i :: 0 <= i < n && i < |history| ==> !Breaches(history[i].ai)
  }

  /** Indices of the turns among the first `n` whose reply shows empathy. */
  ghost function EmpatheticTurns(history: seq<Turn>, n: int): set<int> {
    set i | 0 <= i < n && i < |history| && ShowsEmpathy(history[i].ai)
  }

  /** Number of turns among the first `n` whose reply shows empathy,
      counted one turn at a time. */
  function EmpathyCount(history: seq<Turn>, n: nat): nat
    requires n <= |history|
  {
    if n == 0 then 0
    else EmpathyCount(history, n - 1) + (if ShowsEmpathy(history[n - 1].ai) then 1 else 0)
  }

  /** `(compliance_pass, empathy_score)`. */
  datatype Verdict = Verdict(compliancePass: bool, empathyScore: nat)

  /** The loop of `validate_results`. */
  method ValidateResults(history: seq<Turn>) returns (v: Verdict)
    ensures v.compliancePass <==> forall i :: 0 <= i < |history| ==> !Breaches(history[i].ai)
    ensures v.empathyScore == |EmpatheticTurns(history, |history|)|
    ensures v.empathyScore <= |history|
  {
    var compliancePass := true;
    var empathyScore := 0;
    var k := 0;
    while k < |history|
      invariant 0 <= k <= |history|
      invariant compliancePass <==> CompliantUpTo(history, k)
      invariant empathyScore == EmpathyCount(history, k)
      invariant empathyScore <= k
    {
      var reply := Lower(history[k].ai);
      // any(w in reply for w in breach_words)
      var breached := MentionsAny(reply, BreachWords);
      var empathetic := Contains(reply, "sorry") || Contains(reply, "understand") || Contains(reply, "hardship");
      JudgeStep(history, k, breached, empathetic);
      if breached {
        compliancePass := false;
      }
      if empathetic {
        empathyScore := empathyScore + 1;
      }
      k := k + 1;
    }
    EmpathyCountIsTurnCount(history, |history|);
    v := Verdict(compliancePass, empathyScore);
  }

  /** The three `in` tests of the source are the empathy-word test. */
  lemma EmpathyWordsListed(reply: string)
    ensures MentionsAny(reply, EmpathyWords)
        <==> Contains(reply, "sorry") || Contains(reply, "understand") || Contains(reply, "hardship")
  {
    var ws := EmpathyWords;
    assert ws[0] == "sorry" && ws[1..][0] == "understand" && ws[1..][1..][0] == "hardship";
    assert ws[1..][1..][1..] == [];
    assert !MentionsAny(reply, ws[1..][1..][1..]);
    assert MentionsAny(reply, ws[1..][1..]) <==> Contains(reply, "hardship");
    assert MentionsAny(reply, ws[1..]) <==> Contains(reply, "understand") || Contains(reply, "hardship");
  }

  /** One more turn adds its index to the empathetic turns exactly when its
      reply shows empathy. */
  lemma EmpatheticTurnsStep(history: seq<Turn>, k: int)
    requires 0 <= k < |history|
    ensures ShowsEmpathy(history[k].ai) ==>
      |EmpatheticTurns(history, k + 1)| == |EmpatheticTurns(history, k)| + 1
    ensures !ShowsEmpathy(history[k].ai) ==>
      |EmpatheticTurns(history, k + 1)| == |EmpatheticTurns(history, k)|
  {
    if ShowsEmpathy(history[k].ai) {
      assert EmpatheticTurns(history, k + 1) == EmpatheticTurns(history, k) + {k};
    } else {
      assert EmpatheticTurns(history, k + 1) == EmpatheticTurns(history, k);
    }
  }

  /** One more turn keeps the transcript compliant exactly when its reply
      does not breach. */
  lemma CompliantUpToStep(history: seq<Turn>, k: int)
    requires 0 <= k < |history|
    ensures CompliantUpTo(history, k + 1) <==> CompliantUpTo(history, k) && !Breaches(history[k].ai)
  {
  }

  /** What one turn of the loop adds: its reply's breach and empathy tests,
      spelled as in the source, are `Breaches` and `ShowsEmpathy`. */
  lemma JudgeStep(history: seq<Turn>, k: int, breached: bool, empathetic: bool)
    requires 0 <= k < |history|
    requires breached == MentionsAny(Lower(history[k].ai), BreachWords)
    requires empathetic == (Contains(Lower(history[k].ai), "sorry") || Contains(Lower(history[k].ai), "understand")
                            || Contains(Lower(history[k].ai), "hardship"))
    ensures CompliantUpTo(history, k + 1) <==> CompliantUpTo(history, k) && !breached
    ensures empathetic == ShowsEmpathy(history[k].ai)
  {
    CompliantUpToStep(history, k);
    EmpathyWordsListed(Lower(history[k].ai));
  }

  /** Counting turn by turn gives the number of empathetic turns: each turn
      counts at most once. */
  lemma {:induction false} EmpathyCountIsTurnCount(history: seq<Turn>, n: nat)
    requires n <= |history|
    ensures EmpathyCount(history, n) == |EmpatheticTurns(history, n)|
    ensures EmpathyCount(history, n) <= n
  {
    if n == 0 {
      assert EmpatheticTurns(history, 0) == {};
    } else {
      EmpathyCountIsTurnCount(history, n - 1);
      EmpatheticTurnsStep(history, n - 1);
    }
  }

  /** `pat` is found in the lower-cased `s` wherever `s` spells it in any
      mix of cases. */
  lemma FoundInLower(s: string, pat: string, i: int)
    requires 0 <= i && i + |pat| <= |s|
    requires forall j :: 0 <= j < |pat| ==> LowerChar(s[i + j]) == pat[j]
    ensures Contains(Lower(s), pat)
  {
    var r := Lower(s);
    assert r[i..i + |pat|] == pat;
    assert OccursAt(r, pat, i);
  }

  /** Matching is by substring: "issue" and "pursue" contain "sue". */
  lemma SubstringNotWholeWord()
    ensures Breaches("We can look into the issue.")
    ensures Breaches("We will not pursue this further.")
  {
    FoundInLower("We can look into the issue.", "sue", 23);
    FoundInLower("We will not pursue this further.", "sue", 15);
  }

  /** Matching ignores case, since each reply is lower-cased first. */
  lemma MatchingIgnoresCase()
    ensures Breaches("Pay now or we call the POLICE.")
    ensures ShowsEmpathy("I am SORRY to hear that.")
  {
    FoundInLower("Pay now or we call the POLICE.", "police", 23);
    FoundInLower("I am SORRY to hear that.", "sorry", 5);
  }
}
