/**
 One pass of the harvester's driver: announce the number of words, look every
 word up in word-list order, write each usable payload to a file bucketed by
 the word's upper-cased first letter, stop at the first authentication
 failure, and announce the end.

 The external command-line lookup is not modelled. What it returns for the
 i-th word is given as `outcomes[i]`, already classified: `Null` when the
 command failed, printed invalid JSON or a falsy value; `AuthFalse` when the
 parsed value has `authenticated === false`; otherwise `Payload(json)`, where
 `json` is the serialised text the driver writes. The console reporter's
 effect is the list of events emitted; the file system is a map from path to
 file content. The random delay between lookups has no effect on either.
 */
module Harvest {
  import opened Text

  datatype Outcome = Null | AuthFalse | Payload(json: string)

  datatype Event =
    | Start(total: nat)
    | Progress(word: string, index: nat, total: nat)
    | AuthFailure(word: string)
    | Done

  /** What a pass has done so far: the events emitted, the files written and
      the words handed to the lookup command, in order. */
  datatype Run = Run(events: seq<Event>, files: map<string, string>, lookups: seq<string>)

  /** A word whose result path `path.join` leaves as written: it is not
      blank, its first non-blank character is not `.`, and it has no `/`. A
      blank word would make the source throw on `word.trim()[0].toUpperCase()`;
      the word-list loader never produces one. */
  predicate Nameable(word: string) {
    LeadingBlanks(word) < |word| && word[LeadingBlanks(word)] != '.' && '/' !in word
  }

  /** `word.trim()[0]`: the first character after the leading whitespace. */
  function Letter(word: string): char
    requires LeadingBlanks(word) < |word|
  {
    word[LeadingBlanks(word)]
  }

  /** `result/<first letter upper-cased>/<word>.json` */
  function ResultPath(word: string): (path: string)
    requires Nameable(word)
    ensures StartsWith(path, "result/") && EndsWith(path, word + ".json")
    ensures |path| == |word| + 14 && path[7] == Upper(Letter(word)) && path[8] == '/'
  {
    "result/" + [Upper(Letter(word))] + "/" + word + ".json"
  }

  /** The word a result path was made from. */
  function WordOfPath(path: string): string
    requires |path| >= 14
  {
    path[9..|path| - 5]
  }

  /** A result path names its word: reading the word back out of the path
      gives it, so two words share a result file only when they are equal. */
  lemma ResultPathNamesWord(w1: string, w2: string)
    requires Nameable(w1) && Nameable(w2)
    ensures WordOfPath(ResultPath(w1)) == w1
    ensures ResultPath(w1) == ResultPath(w2) <==> w1 == w2
  {
    var p1, p2 := ResultPath(w1), ResultPath(w2);
    assert p1[9..|p1| - 5] == w1;
    assert p2[9..|p2| - 5] == w2;
  }

  /** Both the outcomes and the words are there for every position, and every
      word has a plain result path. */
  predicate WellFormed(words: seq<string>, outcomes: seq<Outcome>) {
    |outcomes| == |words| && AllNameable(words)
  }

  /** Every word has a plain result path. */
  predicate AllNameable(words: seq<string>) {
    forall i :: 0 <= i < |words| ==> Nameable(words[i])
  }

  /** The position of the first authentication failure, or the number of
      outcomes when there is none. */
  function HaltIndex(outcomes: seq<Outcome>): (h: nat)
    ensures h <= |outcomes|
    ensures forall k :: 0 <= k < h ==> !outcomes[k].AuthFalse?
    ensures h < |outcomes| ==> outcomes[h].AuthFalse?
  {
    if |outcomes| == 0 || outcomes[0].AuthFalse? then 0
    else 1 + HaltIndex(outcomes[1..])
  }

  /** One position that does not halt the loop: the word is looked up, a
      payload is written to the word's result path (replacing any earlier
      file there), a `Null` outcome writes nothing, and a progress event is
      emitted either way. */
  function Step(words: seq<string>, outcomes: seq<Outcome>, i: nat, acc: Run): Run
    requires WellFormed(words, outcomes) && i < |words| && !outcomes[i].AuthFalse?
  {
    var word := words[i];
    var files := if outcomes[i].Payload? then acc.files[ResultPath(word) := outcomes[i].json] else acc.files;
    Run(acc.events + [Progress(word, i, |words|)], files, acc.lookups + [word])
  }

  /** The `for` loop from the i-th word on, with its `continue` and its
      `break` on an authentication failure. */
  function Loop(words: seq<string>, outcomes: seq<Outcome>, i: nat, acc: Run): Run
    requires WellFormed(words, outcomes) && i <= |words|
    decreases |words| - i
  {
    if i == |words| then acc
    else if outcomes[i].AuthFalse? then
      Run(acc.events + [AuthFailure(words[i])], acc.files, acc.lookups + [words[i]])
    else Loop(words, outcomes, i + 1, Step(words, outcomes, i, acc))
  }

  /** The pass: `start` with the word count, the loop, then `done`. */
  function RunPass(words: seq<string>, outcomes: seq<Outcome>): Run
    requires WellFormed(words, outcomes)
  {
    var r := Loop(words, outcomes, 0, Run([Start(|words|)], map[], []));
    r.(events := r.events + [Done])
  }

  /** The progress events of positions lo up to hi, in order. */
  function ProgressEvents(words: seq<string>, lo: nat, hi: nat): (r: seq<Event>)
    requires lo <= hi <= |words|
    ensures |r| == hi - lo
    ensures forall k :: 0 <= k < hi - lo ==> r[k] == Progress(words[lo + k], lo + k, |words|)
  {
    seq(hi - lo, k requires 0 <= k < hi - lo => Progress(words[lo + k], lo + k, |words|))
  }

  /** Peeling the first progress event off. */
  lemma ProgressEventsCons(words: seq<string>, lo: nat, hi: nat)
    requires lo < hi <= |words|
    ensures ProgressEvents(words, lo, hi) == [Progress(words[lo], lo, |words|)] + ProgressEvents(words, lo + 1, hi)
  {
  }

  /** Regrouping an appended element. */
  lemma Regroup<T>(a: seq<T>, x: T, b: seq<T>, c: seq<T>)
    ensures a + [x] + b + c == a + ([x] + b) + c
    ensures a + [x] + b == a + ([x] + b)
  {
  }

  /** The authentication-failure event, when there is one. */
  function AuthTail(words: seq<string>, outcomes: seq<Outcome>): seq<Event>
    requires |outcomes| == |words|
  {
    var h := HaltIndex(outcomes);
    if h < |words| then [AuthFailure(words[h])] else []
  }

  /** The number of words looked up: every word up to the first
      authentication failure, that one included. */
  function LookedUpCount(outcomes: seq<Outcome>): (n: nat)
    ensures n <= |outcomes|
  {
    var h := HaltIndex(outcomes);
    if h < |outcomes| then h + 1 else h
  }

  /** From position i on, the loop adds the progress events of positions i up
      to the halt, then the authentication failure if there is one. */
  lemma {:induction false} LoopEvents(words: seq<string>, outcomes: seq<Outcome>, i: nat, acc: Run)
    requires WellFormed(words, outcomes) && i <= HaltIndex(outcomes)
    ensures Loop(words, outcomes, i, acc).events
      == acc.events + ProgressEvents(words, i, HaltIndex(outcomes)) + AuthTail(words, outcomes)
    decreases |words| - i
  {
    var h := HaltIndex(outcomes);
    if i < h {
      var acc' := Step(words, outcomes, i, acc);
      var first := Progress(words[i], i, |words|);
      assert Loop(words, outcomes, i, acc) == Loop(words, outcomes, i + 1, acc');
      LoopEvents(words, outcomes, i + 1, acc');
      ProgressEventsCons(words, i, h);
      Regroup(acc.events, first, ProgressEvents(words, i + 1, h), AuthTail(words, outcomes));
    }
  }

  /** From position i on, the loop looks up the words of positions i up to
      and including the halting one, in order. */
  lemma {:induction false} LoopLookups(words: seq<string>, outcomes: seq<Outcome>, i: nat, acc: Run)
    requires WellFormed(words, outcomes) && i <= HaltIndex(outcomes)
    ensures Loop(words, outcomes, i, acc).lookups == acc.lookups + words[i..LookedUpCount(outcomes)]
    decreases |words| - i
  {
    var h := HaltIndex(outcomes);
    if i < h {
      var acc' := Step(words, outcomes, i, acc);
      var n := LookedUpCount(outcomes);
      assert Loop(words, outcomes, i, acc) == Loop(words, outcomes, i + 1, acc');
      assert acc'.lookups == acc.lookups + [words[i]];
      LoopLookups(words, outcomes, i + 1, acc');
      assert [words[i]] + words[i + 1..n] == words[i..n];
      Regroup(acc.lookups, words[i], words[i + 1..n], []);
    } else if i < |words| {
      assert LookedUpCount(outcomes) == i + 1;
      assert words[i..i + 1] == [words[i]];
    }
  }

  /** Some payload position in i up to h writes path p. */
  predicate Written(words: seq<string>, outcomes: seq<Outcome>, i: nat, h: nat, p: string)
    requires WellFormed(words, outcomes) && h <= |words|
  {
    exists k :: i <= k < h && outcomes[k].Payload? && ResultPath(words[k]) == p
  }

  /** From position i on, the loop writes exactly the result paths of the
      payload positions before the halt and leaves every other file as it
      was. */
  lemma {:induction false} LoopFilePaths(words: seq<string>, outcomes: seq<Outcome>, i: nat, acc: Run)
    requires WellFormed(words, outcomes) && i <= HaltIndex(outcomes)
    ensures forall p :: p in Loop(words, outcomes, i, acc).files <==>
      p in acc.files || Written(words, outcomes, i, HaltIndex(outcomes), p)
    ensures forall p :: p in acc.files && !Written(words, outcomes, i, HaltIndex(outcomes), p) ==>
      Loop(words, outcomes, i, acc).files[p] == acc.files[p]
    decreases |words| - i
  {
    var h := HaltIndex(outcomes);
    if i < h {
      var acc' := Step(words, outcomes, i, acc);
      assert Loop(words, outcomes, i, acc) == Loop(words, outcomes, i + 1, acc');
      LoopFilePaths(words, outcomes, i + 1, acc');
      forall p ensures Written(words, outcomes, i, h, p) <==>
        (outcomes[i].Payload? && ResultPath(words[i]) == p) || Written(words, outcomes, i + 1, h, p)
      {
        if Written(words, outcomes, i, h, p) {
          var k :| i <= k < h && outcomes[k].Payload? && ResultPath(words[k]) == p;
          if k > i {
            assert Written(words, outcomes, i + 1, h, p);
          }
        }
      }
    }
  }

  /** From position i on, a payload position before the halt whose word does
      not come back later leaves its payload in the word's result file. */
  lemma {:induction false} LoopLastWriteWins(words: seq<string>, outcomes: seq<Outcome>, i: nat, acc: Run)
    requires WellFormed(words, outcomes) && i <= HaltIndex(outcomes)
    ensures forall k ::
      (&& i <= k < HaltIndex(outcomes) && outcomes[k].Payload?
       && forall j :: k < j < HaltIndex(outcomes) && outcomes[j].Payload? ==> words[j] != words[k])
      ==> && ResultPath(words[k]) in Loop(words, outcomes, i, acc).files
          && Loop(words, outcomes, i, acc).files[ResultPath(words[k])] == outcomes[k].json
    decreases |words| - i
  {
    var h := HaltIndex(outcomes);
    if i < h {
      var acc' := Step(words, outcomes, i, acc);
      assert Loop(words, outcomes, i, acc) == Loop(words, outcomes, i + 1, acc');
      LoopLastWriteWins(words, outcomes, i + 1, acc');
      LoopFilePaths(words, outcomes, i + 1, acc');
      if outcomes[i].Payload? && forall j :: i < j < h && outcomes[j].Payload? ==> words[j] != words[i] {
        NotWrittenLater(words, outcomes, i, h);
      }
    }
  }

  /** A word that no later payload position before h repeats has its result
      path written by none of them. */
  lemma NotWrittenLater(words: seq<string>, outcomes: seq<Outcome>, i: nat, h: nat)
    requires WellFormed(words, outcomes) && i < h <= |words|
    requires forall j :: i < j < h && outcomes[j].Payload? ==> words[j] != words[i]
    ensures !Written(words, outcomes, i + 1, h, ResultPath(words[i]))
  {
    forall j | i + 1 <= j < h && outcomes[j].Payload? ensures ResultPath(words[j]) != ResultPath(words[i]) {
      ResultPathNamesWord(words[j], words[i]);
    }
  }

  /** The events of a pass: `start` with the number of words; one progress
      event per word up to the first authentication failure, with indices
      0, 1, ... in word-list order; the failure, if any; `done` last. */
  lemma RunEvents(words: seq<string>, outcomes: seq<Outcome>)
    requires WellFormed(words, outcomes)
    ensures RunPass(words, outcomes).events ==
      [Start(|words|)] + ProgressEvents(words, 0, HaltIndex(outcomes)) + AuthTail(words, outcomes) + [Done]
  {
    LoopEvents(words, outcomes, 0, Run([Start(|words|)], map[], []));
  }

  /** `start` is emitted exactly once, first; `done` exactly once, last, also
      after an authentication failure. */
  lemma StartFirstDoneLast(words: seq<string>, outcomes: seq<Outcome>)
    requires WellFormed(words, outcomes)
    ensures |RunPass(words, outcomes).events| >= 2
    ensures RunPass(words, outcomes).events[0] == Start(|words|)
    ensures RunPass(words, outcomes).events[|RunPass(words, outcomes).events| - 1] == Done
    ensures forall k :: 0 < k < |RunPass(words, outcomes).events| ==> !RunPass(words, outcomes).events[k].Start?
    ensures forall k :: 0 <= k < |RunPass(words, outcomes).events| - 1 ==> !RunPass(words, outcomes).events[k].Done?
  {
    RunEvents(words, outcomes);
  }

  /** The closed form of a pass's events, position by position: `start`,
      the progress events, the failure if any, `done`. */
  lemma EventsLayout(words: seq<string>, outcomes: seq<Outcome>, e: seq<Event>)
    requires |outcomes| == |words|
    requires e == [Start(|words|)] + ProgressEvents(words, 0, HaltIndex(outcomes)) + AuthTail(words, outcomes) + [Done]
    ensures |e| == LookedUpCount(outcomes) + 2
    ensures e[0] == Start(|words|) && e[|e| - 1] == Done
    ensures forall k :: 0 < k <= HaltIndex(outcomes) ==> e[k] == Progress(words[k - 1], k - 1, |words|)
    ensures HaltIndex(outcomes) < |words| ==> e[HaltIndex(outcomes) + 1] == AuthFailure(words[HaltIndex(outcomes)])
  {
    var h := HaltIndex(outcomes);
    var pe := ProgressEvents(words, 0, h);
    var front := [Start(|words|)] + pe;
    var body := front + AuthTail(words, outcomes);
    assert e == body + [Done];
    forall k | 0 < k <= h ensures e[k] == pe[k - 1] {
      assert e[k] == body[k] == front[k];
    }
    if h < |words| {
      assert e[h + 1] == body[h + 1];
    }
  }

  /** Only the positions between `start` and the failure hold progress
      events, and only the one after them the failure. */
  lemma EventsByPosition(words: seq<string>, outcomes: seq<Outcome>, e: seq<Event>)
    requires |outcomes| == |words|
    requires e == [Start(|words|)] + ProgressEvents(words, 0, HaltIndex(outcomes)) + AuthTail(words, outcomes) + [Done]
    ensures forall k :: 0 <= k < |e| && e[k].Progress? ==> 1 <= k <= HaltIndex(outcomes)
    ensures forall k :: 0 <= k < |e| && e[k].AuthFailure? ==> k == HaltIndex(outcomes) + 1
  {
    EventsLayout(words, outcomes, e);
  }

  /** The k-th progress event is for the k-th word; an authentication failure
      is reported exactly when one occurred, right after the progress events,
      for the word that caused it. */
  lemma ProgressInWordOrder(words: seq<string>, outcomes: seq<Outcome>)
    requires WellFormed(words, outcomes)
    ensures |RunPass(words, outcomes).events| == LookedUpCount(outcomes) + 2
    ensures forall k :: 0 <= k < HaltIndex(outcomes) ==>
      RunPass(words, outcomes).events[k + 1] == Progress(words[k], k, |words|)
    ensures forall k :: 0 <= k < |RunPass(words, outcomes).events| && RunPass(words, outcomes).events[k].Progress? ==>
      1 <= k <= HaltIndex(outcomes)
    ensures (exists k :: 0 <= k < |RunPass(words, outcomes).events| && RunPass(words, outcomes).events[k].AuthFailure?)
      <==> HaltIndex(outcomes) < |words|
    ensures HaltIndex(outcomes) < |words| ==>
      RunPass(words, outcomes).events[HaltIndex(outcomes) + 1] == AuthFailure(words[HaltIndex(outcomes)])
  {
    RunEvents(words, outcomes);
    var e := RunPass(words, outcomes).events;
    EventsLayout(words, outcomes, e);
    EventsByPosition(words, outcomes, e);
    if HaltIndex(outcomes) < |words| {
      assert e[HaltIndex(outcomes) + 1].AuthFailure?;
    }
  }

  /** The lookup command is called with the words in word-list order, each
      once, and with no word after the first authentication failure. */
  lemma RunLookups(words: seq<string>, outcomes: seq<Outcome>)
    requires WellFormed(words, outcomes)
    ensures RunPass(words, outcomes).lookups == words[..LookedUpCount(outcomes)]
  {
    LoopLookups(words, outcomes, 0, Run([Start(|words|)], map[], []));
  }

  /** A file exists exactly for the words before the first authentication
      failure whose lookup gave a payload, at the word's result path; when a
      word occurs several times the last payload wins. */
  lemma RunFiles(words: seq<string>, outcomes: seq<Outcome>)
    requires WellFormed(words, outcomes)
    ensures forall p :: p in RunPass(words, outcomes).files <==>
      exists k :: 0 <= k < HaltIndex(outcomes) && outcomes[k].Payload? && ResultPath(words[k]) == p
    ensures forall k ::
      (&& 0 <= k < HaltIndex(outcomes) && outcomes[k].Payload?
       && forall j :: k < j < HaltIndex(outcomes) && outcomes[j].Payload? ==> words[j] != words[k])
      ==> && ResultPath(words[k]) in RunPass(words, outcomes).files
          && RunPass(words, outcomes).files[ResultPath(words[k])] == outcomes[k].json
  {
    var init := Run([Start(|words|)], map[], []);
    LoopFilePaths(words, outcomes, 0, init);
    LoopLastWriteWins(words, outcomes, 0, init);
  }

  /** The driver's `for` loop as written, with `continue` and `break`. */
  method Harvest(words: seq<string>, outcomes: seq<Outcome>) returns (r: Run)
    requires WellFormed(words, outcomes)
    ensures r == RunPass(words, outcomes)
  {
    var total := |words|;
    var events := [Start(total)];
    var files: map<string, string> := map[];
    var lookups: seq<string> := [];
    var i := 0;
    while i < total
      invariant 0 <= i <= total
      invariant Loop(words, outcomes, i, Run(events, files, lookups))
        == Loop(words, outcomes, 0, Run([Start(total)], map[], []))
    {
      var word := words[i];
      lookups := lookups + [word];
      var entry := outcomes[i];
      if entry.Null? {
        events := events + [Progress(word, i, total)];
        i := i + 1;
        continue;
      }
      if entry.AuthFalse? {
        events := events + [AuthFailure(word)];
        break;
      }
      files := files[ResultPath(word) := entry.json];
      events := events + [Progress(word, i, total)];
      i := i + 1;
    }
    r := Run(events + [Done], files, lookups);
  }
}
