/**
 * `process_search` (tobacco.py:80-96): rank the catalog names against the
 * query, keep the matches scoring above the threshold, and offer each as a
 * button whose token selects that exact name.  The fuzzy ranking itself is
 * foreign code; it enters the model as its output, constrained by `IsRanking`.
 */
module Search {
  import opened Optional
  import opened Tokens
  import opened Replies

  /** One `(name, score)` pair of the ranking. */
  datatype Match = Match(name: string, score: int)

  /** Similarity a match must strictly exceed to be shown (tobacco.py:89). */
  const Threshold: int := 60
  /** The `limit=5` passed to the ranking (tobacco.py:84). */
  const Limit: nat := 5

  /**
   * What the ranking promises about its output: at most `limit` pairs, each
   * naming a distinct candidate with a score in 0..100, best score first.
   */
  ghost predicate IsRanking(ranked: seq<Match>, candidates: set<string>, limit: nat) {
    && |ranked| <= limit
    && (forall i :: 0 <= i < |ranked| ==> ranked[i].name in candidates && 0 <= ranked[i].score <= 100)
    && (forall i, j :: 0 <= i < j < |ranked| ==> ranked[i].name != ranked[j].name)
    && Descending(ranked)
  }

  ghost predicate Descending(ms: seq<Match>) {
    forall i, j :: 0 <= i < j < |ms| ==> ms[i].score >= ms[j].score
  }

  /** `a` is `b` with some elements dropped and the rest kept in order. */
  ghost predicate IsSubsequence(a: seq<Match>, b: seq<Match>)
    decreases |b|
  {
    if a == [] then true
    else if b == [] then false
    else (a[0] == b[0] && IsSubsequence(a[1..], b[1..])) || IsSubsequence(a, b[1..])
  }

  /** The matches that pass the threshold, in ranking order. */
  function Survivors(ranked: seq<Match>): (r: seq<Match>)
    ensures |r| <= |ranked|
    ensures forall k :: 0 <= k < |r| ==> r[k] in ranked && r[k].score > Threshold
  {
    if ranked == [] then [] else Kept(ranked[0]) + Survivors(ranked[1..])
  }

  /** The test of tobacco.py:89 applied to one match. */
  function Kept(m: Match): seq<Match> {
    if m.score > Threshold then [m] else []
  }

  /** The button of one surviving match: its name, and the token `select_<name>`. */
  function OptionFor(m: Match): Button {
    Button(m.name, Encode(SelectPrefix, m.name))
  }

  function OptionsFor(ms: seq<Match>): seq<Button> {
    seq(|ms|, k requires 0 <= k < |ms| => OptionFor(ms[k]))
  }

  /** The reply `process_search` sends for a ranking. */
  function SearchReply(ranked: seq<Match>): (r: Reply)
    ensures r.NotFound? || r.Choose?
    ensures r.Choose? ==>
      && 0 < |r.options| == |Survivors(ranked)|
      && forall k :: 0 <= k < |r.options| ==>
           r.options[k].caption == Survivors(ranked)[k].name && RouteOf(r.options[k].token) == ToShow
  {
    if ranked == [] then NotFound
    else if Survivors(ranked) == [] then NotFound
    else Choose(OptionsFor(Survivors(ranked)))
  }

  /** The loop of tobacco.py:86-96: one button per surviving match, appended in order. */
  method BuildReply(ranked: seq<Match>) returns (reply: Reply)
    ensures reply == SearchReply(ranked)
    ensures reply == NotFound <==> forall i :: 0 <= i < |ranked| ==> ranked[i].score <= Threshold
  {
    if |ranked| == 0 {
      return NotFound;
    }
    var keyboard: seq<Button> := [];
    for i := 0 to |ranked|
      invariant keyboard == OptionsFor(Survivors(ranked[..i]))
    {
      ghost var before := Survivors(ranked[..i]);
      assert ranked[..i + 1] == ranked[..i] + [ranked[i]];
      SurvivorsAppend(ranked[..i], [ranked[i]]);
      assert Survivors([ranked[i]]) == Kept(ranked[i]) + Survivors([]);
      OptionsForAppend(before, Kept(ranked[i]));
      if ranked[i].score > Threshold {
        keyboard := keyboard + [OptionFor(ranked[i])];
      }
    }
    assert ranked[..|ranked|] == ranked;
    if |keyboard| > 0 {
      reply := Choose(keyboard);
    } else {
      reply := NotFound;
    }
    NotFoundExactly(ranked);
  }

  lemma OptionsForAppend(a: seq<Match>, b: seq<Match>)
    ensures OptionsFor(a + b) == OptionsFor(a) + OptionsFor(b)
  {
  }

  /** Filtering distributes over concatenation. */
  lemma {:induction false} SurvivorsAppend(a: seq<Match>, b: seq<Match>)
    ensures Survivors(a + b) == Survivors(a) + Survivors(b)
  {
    if a == [] {
      assert a + b == b;
    } else {
      calc {
        Survivors(a + b);
        Kept(a[0]) + Survivors((a + b)[1..]);
        { assert (a + b)[1..] == a[1..] + b; }
        Kept(a[0]) + Survivors(a[1..] + b);
        { SurvivorsAppend(a[1..], b); }
        Kept(a[0]) + (Survivors(a[1..]) + Survivors(b));
      }
    }
  }

  /** A match is offered if and only if it is ranked and scores strictly above 60. */
  lemma {:induction false} SurvivorsMembership(ranked: seq<Match>, m: Match)
    ensures m in Survivors(ranked) <==> m in ranked && m.score > Threshold
  {
    if ranked != [] {
      SurvivorsMembership(ranked[1..], m);
      assert ranked == [ranked[0]] + ranked[1..];
    }
  }

  /** Survivors keep the ranking's order, and so never outnumber it. */
  lemma {:induction false} SurvivorsInOrder(ranked: seq<Match>)
    ensures IsSubsequence(Survivors(ranked), ranked)
    ensures |Survivors(ranked)| <= |ranked|
  {
    if ranked != [] {
      SurvivorsInOrder(ranked[1..]);
      var rest := Survivors(ranked[1..]);
      if ranked[0].score > Threshold {
        assert Survivors(ranked) == [ranked[0]] + rest;
      } else {
        assert Survivors(ranked) == rest;
        SubsequenceSkip(rest, ranked);
      }
    }
  }

  lemma {:induction false} SubsequenceSkip(a: seq<Match>, b: seq<Match>)
    requires b != [] && IsSubsequence(a, b[1..])
    ensures IsSubsequence(a, b)
  {
  }

  /** Dropping matches from a best-first ranking leaves it best-first. */
  lemma {:induction false} SurvivorsDescending(ranked: seq<Match>)
    requires Descending(ranked)
    ensures Descending(Survivors(ranked))
  {
    if ranked != [] {
      SurvivorsDescending(ranked[1..]);
      var rest := Survivors(ranked[1..]);
      if ranked[0].score > Threshold {
        forall j | 0 <= j < |rest|
          ensures ranked[0].score >= rest[j].score
        {
          SurvivorsMembership(ranked[1..], rest[j]);
        }
      }
    }
  }

  /** "Not found" is sent exactly when no ranked match scores above 60, including when there is none. */
  lemma NotFoundExactly(ranked: seq<Match>)
    ensures SearchReply(ranked) == NotFound <==> forall i :: 0 <= i < |ranked| ==> ranked[i].score <= Threshold
    ensures SearchReply(ranked) != NotFound ==> SearchReply(ranked) == Choose(OptionsFor(Survivors(ranked)))
  {
    if exists i :: 0 <= i < |ranked| && ranked[i].score > Threshold {
      var i :| 0 <= i < |ranked| && ranked[i].score > Threshold;
      SurvivorsMembership(ranked, ranked[i]);
    } else if Survivors(ranked) != [] {
      SurvivorsMembership(ranked, Survivors(ranked)[0]);
    }
  }

  /** An empty catalog can only be ranked as nothing, so every search of it is answered "not found". */
  lemma EmptyCatalogNotFound(ranked: seq<Match>)
    requires IsRanking(ranked, {}, Limit)
    ensures SearchReply(ranked) == NotFound
  {
  }

  /** The threshold is strict: a score of exactly 60 is dropped, 61 is kept. */
  lemma ThresholdIsStrict(name: string)
    ensures SearchReply([Match(name, Threshold)]) == NotFound
    ensures SearchReply([Match(name, Threshold + 1)]) == Choose([OptionFor(Match(name, Threshold + 1))])
  {
    assert Survivors([Match(name, Threshold)]) == Kept(Match(name, Threshold)) + Survivors([]);
    assert Survivors([Match(name, Threshold + 1)]) == Kept(Match(name, Threshold + 1)) + Survivors([]);
  }

  /**
   * Every offered button names a candidate that the ranking scored above 60;
   * there are at most five of them and no name twice; and each token reaches
   * the show handler, which decodes it back to that exact name.
   */
  lemma OptionsAreSelectable(ranked: seq<Match>, candidates: set<string>)
    requires IsRanking(ranked, candidates, Limit)
    ensures SearchReply(ranked).Choose? ==> 0 < |SearchReply(ranked).options| <= Limit
    ensures SearchReply(ranked).Choose? ==>
      var options := SearchReply(ranked).options;
      forall k :: 0 <= k < |options| ==>
        && options[k].caption in candidates
        && Match(options[k].caption, MatchScore(ranked, options[k].caption)) in ranked
        && MatchScore(ranked, options[k].caption) > Threshold
        && RouteOf(options[k].token) == ToShow
        && Payload(options[k].token) == Some(options[k].caption)
    ensures SearchReply(ranked).Choose? ==>
      var options := SearchReply(ranked).options;
      forall k, l :: 0 <= k < l < |options| ==> options[k].caption != options[l].caption
  {
    if SearchReply(ranked).Choose? {
      var options := SearchReply(ranked).options;
      assert options == OptionsFor(Survivors(ranked));
      SurvivorsDistinct(ranked);
      forall k | 0 <= k < |options|
        ensures options[k].caption in candidates
        ensures Match(options[k].caption, MatchScore(ranked, options[k].caption)) in ranked
        ensures MatchScore(ranked, options[k].caption) > Threshold
        ensures RouteOf(options[k].token) == ToShow
        ensures Payload(options[k].token) == Some(options[k].caption)
      {
        OptionOfSurvivor(ranked, candidates, k);
      }
    }
  }

  /** The facts about one offered button, from the survivor it was built for. */
  lemma OptionOfSurvivor(ranked: seq<Match>, candidates: set<string>, k: nat)
    requires IsRanking(ranked, candidates, Limit)
    requires k < |Survivors(ranked)|
    ensures var b := OptionsFor(Survivors(ranked))[k];
      && b.caption in candidates
      && Match(b.caption, MatchScore(ranked, b.caption)) in ranked
      && MatchScore(ranked, b.caption) > Threshold
      && RouteOf(b.token) == ToShow
      && Payload(b.token) == Some(b.caption)
  {
    var m := Survivors(ranked)[k];
    assert OptionsFor(Survivors(ranked))[k] == OptionFor(m);
    SurvivorsMembership(ranked, m);
    MatchScoreOf(ranked, m);
    RoundTrip(SelectPrefix, m.name);
  }

  /** The score the ranking gave a name (0 when it is not ranked). */
  function MatchScore(ranked: seq<Match>, name: string): int {
    if ranked == [] then 0
    else if ranked[0].name == name then ranked[0].score
    else MatchScore(ranked[1..], name)
  }

  lemma {:induction false} MatchScoreOf(ranked: seq<Match>, m: Match)
    requires forall i, j :: 0 <= i < j < |ranked| ==> ranked[i].name != ranked[j].name
    requires m in ranked
    ensures MatchScore(ranked, m.name) == m.score
  {
    if ranked[0] != m {
      assert m in ranked[1..];
      MatchScoreOf(ranked[1..], m);
    }
  }

  /** Survivors of a ranking with distinct names have distinct names. */
  lemma {:induction false} SurvivorsDistinct(ranked: seq<Match>)
    requires forall i, j :: 0 <= i < j < |ranked| ==> ranked[i].name != ranked[j].name
    ensures var s := Survivors(ranked);
      forall k, l :: 0 <= k < l < |s| ==> s[k].name != s[l].name
  {
    if ranked != [] {
      SurvivorsDistinct(ranked[1..]);
      var rest := Survivors(ranked[1..]);
      if ranked[0].score > Threshold {
        forall l | 0 <= l < |rest|
          ensures ranked[0].name != rest[l].name
        {
          SurvivorsMembership(ranked[1..], rest[l]);
        }
      }
    }
  }
}
