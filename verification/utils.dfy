/** Numeric smoothing, clamping and the fuzzy name matcher
    (src/logic/utils.ts). */
module Utils {
  import opened Types
  import Text

  /** The weight `ema` gives the new observation when the caller names none. */
  const DefaultAlpha: real := 0.5

  /** Exponential moving average: the new observation alone when there is no
      history, otherwise `alpha` of the new one blended with the rest of the
      previous average. A weight in [0,1] keeps the result between the two. */
  function Ema(previous: Option<real>, current: real, alpha: real): (r: real)
    ensures previous.None? ==> r == current
    ensures previous.Some? && 0.0 <= alpha <= 1.0 ==>
              Min(previous.value, current) <= r <= Max(previous.value, current)
    ensures previous.Some? ==> r - previous.value == alpha * (current - previous.value)
  {
    match previous
    case None => current
    case Some(p) =>
      var r := alpha * current + (1.0 - alpha) * p;
      assert r - p == alpha * (current - p);
      assert 0.0 <= alpha <= 1.0 ==> Min(p, current) <= r <= Max(p, current) by {
        if 0.0 <= alpha <= 1.0 {
          var d := current - p;
          MulNonNeg(alpha, if d >= 0.0 then d else -d);
          MulNonNeg(1.0 - alpha, if d >= 0.0 then d else -d);
          assert alpha * d + (1.0 - alpha) * d == d;
        }
      }
      r
  }

  lemma MulNonNeg(a: real, b: real)
    requires a >= 0.0 && b >= 0.0
    ensures a * b >= 0.0
  {
  }

  /** `Math.min(hi, Math.max(lo, v))`. */
  function Clamp(v: real, lo: real, hi: real): (r: real)
    ensures lo <= hi ==> lo <= r <= hi
    ensures lo <= v <= hi ==> r == v
    ensures v < lo <= hi ==> r == lo
    ensures lo <= hi < v ==> r == hi
    ensures hi < lo ==> r == hi
  {
    Min(hi, Max(lo, v))
  }

  /** The tokens `fuzzyMatch` compares: the lower-cased text cut at every run
      of characters outside [a-z0-9]; a text with no letter or digit gives
      the single empty token. */
  function Normalize(s: string): (r: seq<string>)
    ensures |r| >= 1
    ensures forall i :: 0 <= i < |r| ==> Text.FreeOf(r[i], Text.NonAlnum)
    ensures r == [""] || forall i :: 0 <= i < |r| ==> r[i] != ""
  {
    var pieces := Text.Split(Text.Lower(s), Text.NonAlnum);
    var words := Text.NonEmpty(pieces);
    assert forall i :: 0 <= i < |words| ==> Text.FreeOf(words[i], Text.NonAlnum) by {
      forall i | 0 <= i < |words|
        ensures Text.FreeOf(words[i], Text.NonAlnum)
      {
        assert words[i] in pieces;
      }
    }
    if words == [] then [""] else words
  }

  /** A text with no letter or digit gives the single empty token. */
  lemma NormalizeBlank(g: string)
    requires Text.AllSep(Text.Lower(g), Text.NonAlnum)
    ensures Normalize(g) == [""]
  {
    Text.BlankPieces(Text.Lower(g), Text.NonAlnum);
  }

  /** The tokens are exactly the lower-cased words, whatever runs of other
      characters separate, precede or follow them. */
  lemma NormalizeWords(lead: string, ws: seq<string>, gs: seq<string>, trail: string)
    requires |gs| + 1 == |ws|
    requires Text.Words(Text.LowerAll(ws), Text.NonAlnum) && Text.Gaps(Text.LowerAll(gs), Text.NonAlnum)
    requires Text.AllSep(Text.Lower(lead), Text.NonAlnum) && Text.AllSep(Text.Lower(trail), Text.NonAlnum)
    ensures Normalize(lead + Text.Weave(ws, gs) + trail) == Text.LowerAll(ws)
  {
    var w := Text.Weave(ws, gs);
    Text.LowerConcat(lead + w, trail);
    Text.LowerConcat(lead, w);
    Text.LowerWeave(ws, gs);
    var lw := Text.Weave(Text.LowerAll(ws), Text.LowerAll(gs));
    Text.PaddedPieces(Text.Lower(lead), lw, Text.Lower(trail), Text.NonAlnum);
    Text.SplitWeave(Text.LowerAll(ws), Text.LowerAll(gs), Text.NonAlnum);
  }

  /** Words joined by single blanks give back the lower-cased words. */
  lemma NormalizeJoin(ws: seq<string>)
    requires |ws| >= 1 && Text.Words(Text.LowerAll(ws), Text.NonAlnum)
    ensures Normalize(Text.Join(ws, " ")) == Text.LowerAll(ws)
  {
    var gs := Text.Repeat(" ", |ws| - 1);
    Text.JoinWeave(ws, " ");
    BlankGaps(gs);
    NormalizeWoven(ws, gs);
  }

  lemma NormalizeWoven(ws: seq<string>, gs: seq<string>)
    requires |gs| + 1 == |ws|
    requires Text.Words(Text.LowerAll(ws), Text.NonAlnum) && Text.Gaps(Text.LowerAll(gs), Text.NonAlnum)
    ensures Normalize(Text.Weave(ws, gs)) == Text.LowerAll(ws)
  {
    var w := Text.Weave(ws, gs);
    assert "" + w + "" == w;
    NormalizeWords("", ws, gs, "");
  }

  lemma BlankGaps(gs: seq<string>)
    requires forall i :: 0 <= i < |gs| ==> gs[i] == " "
    ensures Text.Gaps(Text.LowerAll(gs), Text.NonAlnum)
  {
    var lg := Text.LowerAll(gs);
    forall i | 0 <= i < |lg|
      ensures lg[i] != "" && Text.AllSep(lg[i], Text.NonAlnum)
    {
      assert |lg[i]| == 1 && lg[i][0] == Text.LowerChar(' ');
    }
  }

  function TokenSet(s: string): set<string> {
    set t | t in Normalize(s)
  }

  /** How many of `ts` (with repetition) occur in `known`. */
  function CountIn(ts: seq<string>, known: set<string>): (n: nat)
    ensures n <= |ts|
    ensures (forall i :: 0 <= i < |ts| ==> ts[i] in known) ==> n == |ts|
    ensures (forall i :: 0 <= i < |ts| ==> ts[i] !in known) ==> n == 0
  {
    if ts == [] then 0
    else (if ts[0] in known then 1 else 0) + CountIn(ts[1..], known)
  }

  /** The share of the candidate's tokens found among the input's tokens. */
  function Score(known: set<string>, candidate: string): (r: real)
    ensures 0.0 <= r <= 1.0
  {
    Share(Normalize(candidate), known)
  }

  /** How many of `ts` are known, over their number (at least one). */
  function Share(ts: seq<string>, known: set<string>): (r: real)
    ensures 0.0 <= r <= 1.0
    ensures |ts| >= 1 && (forall i :: 0 <= i < |ts| ==> ts[i] in known) ==> r == 1.0
    ensures (forall i :: 0 <= i < |ts| ==> ts[i] !in known) ==> r == 0.0
  {
    var n := CountIn(ts, known);
    var d := if |ts| > 1 then |ts| else 1;
    Ratio(n, d);
    assert |ts| >= 1 && n == |ts| ==> n == d;
    n as real / d as real
  }

  lemma Ratio(n: nat, d: nat)
    requires 0 < d && n <= d
    ensures 0.0 <= n as real / d as real <= 1.0
    ensures n == d ==> n as real / d as real == 1.0
  {
    assert n as real <= d as real;
    if n == d {
      assert n as real / d as real == (d as real) / (d as real);
    }
  }

  /** The share of the candidate's normalized tokens that the input has: all
      of them gives 1, none gives 0. */
  function MatchScore(input: string, candidate: string): (r: real)
    ensures 0.0 <= r <= 1.0
    ensures (forall i :: 0 <= i < |Normalize(candidate)| ==> Normalize(candidate)[i] in TokenSet(input)) ==> r == 1.0
    ensures (forall i :: 0 <= i < |Normalize(candidate)| ==> Normalize(candidate)[i] !in TokenSet(input)) ==> r == 0.0
  {
    Share(Normalize(candidate), TokenSet(input))
  }

  /** `fuzzyMatch`: the earliest candidate with the highest score, provided
      that score reaches one half; nothing otherwise (in particular for an
      empty candidate list). */
  method FuzzyMatch(input: string, candidates: seq<string>) returns (r: Option<string>)
    ensures r.Some? ==> r.value in candidates && MatchScore(input, r.value) >= 0.5
    ensures r.Some? ==> forall c :: c in candidates ==> MatchScore(input, c) <= MatchScore(input, r.value)
    ensures r.Some? ==> exists i :: 0 <= i < |candidates| && candidates[i] == r.value
                          && forall j :: 0 <= j < i ==> MatchScore(input, candidates[j]) < MatchScore(input, r.value)
    ensures r.None? <==> forall c :: c in candidates ==> MatchScore(input, c) < 0.5
  {
    var known := TokenSet(input);
    var scores := seq(|candidates|, i requires 0 <= i < |candidates| => Score(known, candidates[i]));
    var best, bestScore := HighestFirst(scores);
    if bestScore >= 0.5 {
      r := Some(candidates[best.value]);
      assert forall c :: c in candidates ==> MatchScore(input, c) <= bestScore by {
        forall c | c in candidates
          ensures MatchScore(input, c) <= bestScore
        {
          var j :| 0 <= j < |candidates| && candidates[j] == c;
          assert scores[j] == MatchScore(input, c);
        }
      }
      assert forall j :: 0 <= j < best.value ==> MatchScore(input, candidates[j]) < bestScore by {
        forall j | 0 <= j < best.value
          ensures MatchScore(input, candidates[j]) < bestScore
        {
          assert scores[j] == MatchScore(input, candidates[j]);
        }
      }
    } else {
      r := None;
      forall c | c in candidates
        ensures MatchScore(input, c) < 0.5
      {
        var j :| 0 <= j < |candidates| && candidates[j] == c;
        assert scores[j] == MatchScore(input, c);
      }
    }
  }

  /** The scan of `fuzzyMatch`: the first position whose score beats every
      earlier one and is beaten by none, when some score is above zero. */
  method HighestFirst(scores: seq<real>) returns (best: Option<nat>, bestScore: real)
    ensures best.None? ==> bestScore == 0.0
    ensures best.Some? ==> best.value < |scores| && bestScore == scores[best.value]
    ensures forall j :: 0 <= j < |scores| ==> scores[j] <= bestScore
    ensures best.Some? ==> forall j :: 0 <= j < best.value ==> scores[j] < bestScore
  {
    best := None;
    bestScore := 0.0;
    for i := 0 to |scores|
      invariant best.None? ==> bestScore == 0.0
      invariant best.Some? ==> best.value < i && bestScore == scores[best.value]
      invariant forall j :: 0 <= j < i ==> scores[j] <= bestScore
      invariant best.Some? ==> forall j :: 0 <= j < best.value ==> scores[j] < bestScore
    {
      if scores[i] > bestScore {
        best := Some(i);
        bestScore := scores[i];
      }
    }
  }
}
