/**
 * The voice-command interpreter: the effect that `App` runs on every new
 * transcript.  It lower-cases the transcript, and when the result contains
 * the trigger phrase it cuts out the first occurrence, trims what is left
 * and, when that is not empty, hands it on as the text of a new to-do.
 */
module Voice {
  import opened Wrappers
  import opened JsString

  const Trigger: string := "add todo"

  /** The guard of the effect: the lower-cased transcript contains the trigger. */
  predicate Triggered(transcript: string)
    ensures Triggered(transcript) <==> exists k :: TriggerAt(transcript, k)
  {
    TriggerAtLower(transcript);
    Includes(Lower(transcript), Trigger)
  }

  /** The eight characters of `transcript` from `k` on spell the trigger in some mix of cases. */
  predicate TriggerAt(transcript: string, k: int) {
    0 <= k && k + |Trigger| <= |transcript| && Lower(transcript[k..k + |Trigger|]) == Trigger
  }

  /** A case-insensitive match in the transcript is an occurrence in its lower-cased form. */
  lemma TriggerAtLower(transcript: string)
    ensures forall k :: TriggerAt(transcript, k) <==> OccursAt(Lower(transcript), Trigger, k)
  {
    forall k ensures TriggerAt(transcript, k) <==> OccursAt(Lower(transcript), Trigger, k) {
      if 0 <= k && k + |Trigger| <= |transcript| {
        var w := transcript[k..k + |Trigger|];
        assert forall i :: 0 <= i < |w| ==> w[i] == transcript[k + i];
        assert Lower(w) == Lower(transcript)[k..k + |Trigger|];
      }
    }
  }

  /** `transcript.toLowerCase().replace('add todo', '').trim()`. */
  function Candidate(transcript: string): (r: string)
    ensures NoUpper(r) && Trimmed(r)
    ensures |r| <= |transcript|
  {
    Trim(RemoveFirst(Lower(transcript), Trigger))
  }

  /** The text the effect passes to `addTodo`, or None when it does nothing. */
  function Command(transcript: string): (r: Option<string>)
    ensures r.Some? <==> Triggered(transcript) && Candidate(transcript) != []
    ensures r.Some? ==> r.value == Candidate(transcript)
    ensures r.Some? ==> r.value != [] && NoUpper(r.value) && Trimmed(r.value)
  {
    if Triggered(transcript) then
      var text := Candidate(transcript);
      if text != [] then Some(text) else None
    else None
  }

  /** Two transcripts that differ only in letter case give the same command. */
  lemma CaseInsensitive(t: string, u: string)
    requires Lower(t) == Lower(u)
    ensures Command(t) == Command(u)
  {
  }

  /** No trigger in the lower-cased transcript: nothing is dispatched. */
  lemma NoTriggerNoCommand(transcript: string)
    requires forall k :: !OccursAt(Lower(transcript), Trigger, k)
    ensures Command(transcript) == None
  {
  }

  /**
   * When the lower-cased transcript is `a`, the trigger, then `b`, with no
   * earlier occurrence, the candidate is `a + b` trimmed: text before the
   * trigger is kept.
   */
  lemma CandidateKeepsPrefix(transcript: string, a: string, b: string)
    requires Lower(transcript) == a + Trigger + b
    requires forall j :: 0 <= j < |a| ==> !OccursAt(Lower(transcript), Trigger, j)
    ensures Triggered(transcript)
    ensures Candidate(transcript) == Trim(a + b)
  {
    RemoveFirstSplit(a, Trigger, b);
  }

  /**
   * The same split, with `a + b` laid out as whitespace, a trimmed middle
   * `m`, and whitespace: the effect dispatches `m`, or nothing when `m` is empty.
   */
  lemma CommandFromParts(transcript: string, a: string, b: string, w1: string, m: string, w2: string)
    requires Lower(transcript) == a + Trigger + b
    requires forall j :: 0 <= j < |a| ==> !OccursAt(Lower(transcript), Trigger, j)
    requires a + b == w1 + m + w2
    requires AllWhitespace(w1) && AllWhitespace(w2) && Trimmed(m)
    ensures Candidate(transcript) == m
    ensures Command(transcript) == if m == [] then None else Some(m)
  {
    CandidateKeepsPrefix(transcript, a, b);
    TrimUnique(w1, m, w2);
  }

  /** The trigger with only whitespace around it dispatches nothing. */
  lemma BlankPayloadNoCommand(transcript: string, a: string, b: string)
    requires Lower(transcript) == a + Trigger + b
    requires AllWhitespace(a) && AllWhitespace(b)
    ensures Command(transcript) == None
  {
    forall j | 0 <= j < |a| ensures !OccursAt(Lower(transcript), Trigger, j) {
      assert IsWhitespace(Lower(transcript)[j]);
    }
    CommandFromParts(transcript, a, b, a + b, [], []);
  }

  /** The trigger starts with "ad": where no "a" is followed by "d", no trigger starts. */
  lemma NoTriggerBefore(s: string, n: nat)
    requires n <= |s|
    requires forall j :: 0 <= j < n ==> s[j] != 'a' || (j + 1 < |s| && s[j + 1] != 'd')
    ensures forall j :: 0 <= j < n ==> !OccursAt(s, Trigger, j)
  {
    forall j | 0 <= j < n ensures !OccursAt(s, Trigger, j) {
      OccursAtChars(s, Trigger, j);
      assert Trigger[0] == 'a' && Trigger[1] == 'd';
    }
  }

  /** The empty transcript left behind by a dispatch dispatches nothing. */
  lemma EmptyTranscriptNoCommand()
    ensures Command("") == None
  {
  }

  /** Example: a prefix before the trigger stays in the text. */
  lemma PleaseAddTodoBuyMilk(transcript: string)
    requires transcript == "please add todo buy milk"
    ensures Command(transcript) == Some("please  buy milk")
  {
    forall i | 0 <= i < |transcript| ensures Lower(transcript)[i] == transcript[i] {
    }
    assert Lower(transcript) == "please " + Trigger + " buy milk";
    NoTriggerBefore(Lower(transcript), 7);
    CommandFromParts(transcript, "please ", " buy milk", [], "please  buy milk", []);
  }

  /** Example: the trigger matches in any case, and the text comes out lower-cased. */
  lemma UppercaseTrigger(transcript: string)
    requires transcript == "ADD TODO Walk Dog"
    ensures Command(transcript) == Some("walk dog")
  {
    forall i | 0 <= i < |transcript| ensures Lower(transcript)[i] == "add todo walk dog"[i] {
    }
    assert Lower(transcript) == [] + Trigger + " walk dog";
    CommandFromParts(transcript, [], " walk dog", " ", "walk dog", []);
  }

  /** Example: the bare trigger, with or without trailing blanks, does nothing. */
  lemma BareTrigger(transcript: string)
    requires transcript == "add todo" || transcript == "Add todo   "
    ensures Command(transcript) == None
  {
    forall i | 0 <= i < |transcript| ensures Lower(transcript)[i] == ("add todo   ")[i] {
    }
    if transcript == "add todo" {
      assert Lower(transcript) == [] + Trigger + [];
      BlankPayloadNoCommand(transcript, [], []);
    } else {
      assert Lower(transcript) == [] + Trigger + "   ";
      BlankPayloadNoCommand(transcript, [], "   ");
    }
  }

  /** Example: a transcript without the trigger does nothing. */
  lemma NoTriggerExample(transcript: string)
    requires transcript == "buy milk"
    ensures Command(transcript) == None
  {
    NoTriggerBefore(Lower(transcript), |transcript|);
  }
}
