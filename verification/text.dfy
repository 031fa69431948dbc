/** The JavaScript string primitives the core relies on: white space as
    `\s` and `trim()` see it, ASCII lower-casing, `split` on a separator,
    `join`, `trim` and `includes`. */
module Text {

  /** The characters that `\s` in a regular expression and `String.prototype.trim`
      treat as white space (white space plus line terminators). */
  predicate IsSpace(c: char) {
    var n := c as int;
    || n == 0x09 || n == 0x0A || n == 0x0B || n == 0x0C || n == 0x0D || n == 0x20
    || n == 0xA0 || n == 0x1680 || (0x2000 <= n <= 0x200A)
    || n == 0x2028 || n == 0x2029 || n == 0x202F || n == 0x205F || n == 0x3000 || n == 0xFEFF
  }

  predicate IsLowerAlnum(c: char) {
    ('a' <= c <= 'z') || ('0' <= c <= '9')
  }

  function LowerChar(c: char): char {
    if 'A' <= c <= 'Z' then (c as int + 32) as char else c
  }

  /** `toLowerCase()`, restricted to the ASCII letters. */
  function Lower(s: string): (r: string)
    ensures |r| == |s|
    ensures forall i :: 0 <= i < |s| ==> r[i] == LowerChar(s[i])
  {
    if s == [] then [] else [LowerChar(s[0])] + Lower(s[1..])
  }

  lemma LowerIdempotent(s: string)
    ensures Lower(Lower(s)) == Lower(s)
  {
    var l := Lower(s);
    assert forall i :: 0 <= i < |l| ==> Lower(l)[i] == l[i];
  }

  /** What `split` cuts on: one given character, any white space character,
      or any character outside [a-z0-9]. */
  datatype Sep = Char(c: char) | Space | NonAlnum

  predicate IsSep(sep: Sep, c: char) {
    match sep
    case Char(d) => c == d
    case Space => IsSpace(c)
    case NonAlnum => !IsLowerAlnum(c)
  }

  predicate FreeOf(s: string, sep: Sep) {
    forall i :: 0 <= i < |s| ==> !IsSep(sep, s[i])
  }

  function Last<T>(xs: seq<T>): T
    requires |xs| > 0
  {
    xs[|xs| - 1]
  }

  /** `s.split(c)`: the maximal separator-free pieces of `s`, empty pieces
      included; always at least one piece. */
  function Split(s: string, sep: Sep): (r: seq<string>)
    ensures |r| >= 1
    ensures forall i :: 0 <= i < |r| ==> FreeOf(r[i], sep)
    decreases |s|
  {
    if s == [] then [""]
    else
      var rest := Split(s[1..], sep);
      if IsSep(sep, s[0]) then [""] + rest
      else [[s[0]] + rest[0]] + rest[1..]
  }

  /** The first piece ends at the first separator and the last piece starts
      after the last one; with no separator there is a single piece. */
  lemma SplitEnds(s: string, sep: Sep)
    ensures var r := Split(s, sep);
            && |r[0]| <= |s| && r[0] == s[..|r[0]|]
            && |Last(r)| <= |s| && Last(r) == s[|s| - |Last(r)|..]
            && (|r| == 1 ==> r[0] == s)
            && (|r| > 1 ==> |r[0]| < |s| && IsSep(sep, s[|r[0]|]))
            && (|r| > 1 ==> |Last(r)| < |s| && IsSep(sep, s[|s| - |Last(r)| - 1]))
  {
    SplitFirst(s, sep);
    SplitLast(s, sep);
  }

  lemma {:induction false} SplitFirst(s: string, sep: Sep)
    ensures var r := Split(s, sep);
            && |r[0]| <= |s| && r[0] == s[..|r[0]|]
            && (|r| == 1 ==> r[0] == s)
            && (|r| > 1 ==> |r[0]| < |s| && IsSep(sep, s[|r[0]|]))
    decreases |s|
  {
    if s != [] {
      SplitFirst(s[1..], sep);
      var rest := Split(s[1..], sep);
      if !IsSep(sep, s[0]) {
        var r := Split(s, sep);
        assert r == [[s[0]] + rest[0]] + rest[1..];
        assert r[0] == [s[0]] + rest[0];
      }
    }
  }

  /** The last piece of `r` is a suffix of `s`, preceded by a separator
      when there is more than one piece. */
  predicate LastPiece(s: string, sep: Sep, r: seq<string>)
    requires |r| >= 1
  {
    && |Last(r)| <= |s| && Last(r) == s[|s| - |Last(r)|..]
    && (|r| > 1 ==> |Last(r)| < |s| && IsSep(sep, s[|s| - |Last(r)| - 1]))
  }

  lemma {:induction false} SplitLast(s: string, sep: Sep)
    ensures LastPiece(s, sep, Split(s, sep))
    decreases |s|
  {
    if s != [] {
      var rest := Split(s[1..], sep);
      SplitLast(s[1..], sep);
      SplitFirst(s[1..], sep);
      if IsSep(sep, s[0]) {
        assert Split(s, sep) == [[]] + rest;
        LastAfterCut(s, sep, rest);
      } else {
        assert Split(s, sep) == [[s[0]] + rest[0]] + rest[1..];
        LastAfterKeep(s, sep, rest);
      }
    }
  }

  lemma LastAfterKeep(s: string, sep: Sep, rest: seq<string>)
    requires s != [] && |rest| >= 1
    requires LastPiece(s[1..], sep, rest)
    requires |rest| == 1 ==> rest[0] == s[1..]
    ensures LastPiece(s, sep, [[s[0]] + rest[0]] + rest[1..])
  {
    var r := [[s[0]] + rest[0]] + rest[1..];
    if |rest| > 1 {
      var l := Last(rest);
      assert Last(r) == l;
      assert s[1..][|s[1..]| - |l|..] == s[|s| - |l|..];
      assert s[1..][|s[1..]| - |l| - 1] == s[|s| - |l| - 1];
    } else {
      assert Last(r) == [s[0]] + s[1..] == s;
    }
  }

  lemma LastAfterCut(s: string, sep: Sep, rest: seq<string>)
    requires s != [] && IsSep(sep, s[0]) && |rest| >= 1
    requires LastPiece(s[1..], sep, rest)
    requires |rest| == 1 ==> rest[0] == s[1..]
    ensures LastPiece(s, sep, [[]] + rest)
  {
    var l := Last(rest);
    assert Last([[]] + rest) == l;
    assert s[1..][|s[1..]| - |l|..] == s[|s| - |l|..];
    if |rest| > 1 {
      assert s[1..][|s[1..]| - |l| - 1] == s[|s| - |l| - 1];
    }
  }

  /** `xs.join(d)`. */
  function Join(xs: seq<string>, d: string): string {
    if |xs| == 0 then ""
    else if |xs| == 1 then xs[0]
    else xs[0] + d + Join(xs[1..], d)
  }

  /** A join starts with the first piece followed by the separator and ends
      with the last piece. */
  lemma {:induction false} JoinEnds(xs: seq<string>, d: string)
    ensures var r := Join(xs, d);
            && (|xs| == 0 ==> r == "")
            && (|xs| >= 2 ==> xs[0] + d <= r)
            && (|xs| >= 1 ==> xs[0] <= r && |xs[|xs| - 1]| <= |r| && r[|r| - |xs[|xs| - 1]|..] == xs[|xs| - 1])
  {
    if |xs| >= 2 {
      var rest := Join(xs[1..], d);
      JoinEnds(xs[1..], d);
      var l := xs[|xs| - 1];
      assert xs[1..][|xs[1..]| - 1] == l;
      assert Join(xs, d) == (xs[0] + d) + rest;
      assert rest[|rest| - |l|..] == l;
    }
  }

  /** Splitting on a character and joining back with it restores the text. */
  lemma {:induction false} JoinSplit(s: string, c: char)
    ensures Join(Split(s, Char(c)), [c]) == s
  {
    if s != [] {
      var rest := Split(s[1..], Char(c));
      JoinSplit(s[1..], c);
      if s[0] == c {
        assert Split(s, Char(c)) == [""] + rest;
        assert Join([""] + rest, [c]) == "" + [c] + Join(rest, [c]);
      } else {
        var r := [[s[0]] + rest[0]] + rest[1..];
        assert Split(s, Char(c)) == r;
        if |rest| == 1 {
          assert Join(r, [c]) == [s[0]] + rest[0];
        } else {
          assert Join(r, [c]) == [s[0]] + rest[0] + [c] + Join(rest[1..], [c]);
          assert Join(rest, [c]) == rest[0] + [c] + Join(rest[1..], [c]);
        }
      }
    }
  }

  /** Joining separator-free pieces and splitting again gives the pieces back. */
  lemma {:induction false} SplitJoin(xs: seq<string>, c: char)
    requires |xs| >= 1
    requires forall i :: 0 <= i < |xs| ==> FreeOf(xs[i], Char(c))
    ensures Split(Join(xs, [c]), Char(c)) == xs
  {
    if |xs| == 1 {
      SplitFree(xs[0], Char(c));
      assert Join(xs, [c]) == xs[0];
      assert xs == [xs[0]];
    } else {
      SplitJoin(xs[1..], c);
      var tail := Join(xs[1..], [c]);
      assert Join(xs, [c]) == xs[0] + ([c] + tail);
      SplitFreePrefix(xs[0], [c] + tail, Char(c));
      var q := Split([c] + tail, Char(c));
      assert q == [""] + xs[1..] by {
        assert ([c] + tail)[1..] == tail;
      }
      assert q[0] == "" && q[1..] == xs[1..];
      assert xs[0] + q[0] == xs[0];
      assert xs == [xs[0]] + xs[1..];
    }
  }

  /** A separator-free string is a single piece. */
  lemma {:induction false} SplitFree(s: string, sep: Sep)
    requires FreeOf(s, sep)
    ensures Split(s, sep) == [s]
  {
    if s != [] {
      SplitFree(s[1..], sep);
      assert [s[0]] + s[1..] == s;
    }
  }

  /** A separator-free prefix glues onto the first piece of what follows. */
  lemma {:induction false} SplitFreePrefix(a: string, b: string, sep: Sep)
    requires FreeOf(a, sep)
    ensures Split(a + b, sep) == [a + Split(b, sep)[0]] + Split(b, sep)[1..]
    decreases |a|
  {
    if a == [] {
      assert a + b == b;
      var p := Split(b, sep);
      assert a + p[0] == p[0];
      assert p == [p[0]] + p[1..];
    } else {
      SplitFreePrefix(a[1..], b, sep);
      var p := Split(b, sep);
      var rest := Split((a + b)[1..], sep);
      assert (a + b)[1..] == a[1..] + b;
      assert rest == [a[1..] + p[0]] + p[1..];
      assert !IsSep(sep, (a + b)[0]);
      assert Split(a + b, sep) == [[a[0]] + rest[0]] + rest[1..];
      assert [a[0]] + (a[1..] + p[0]) == a + p[0];
    }
  }

  predicate AllSpace(s: string) {
    forall i :: 0 <= i < |s| ==> IsSpace(s[i])
  }

  /** No white space at either end. */
  predicate IsTrimmed(s: string) {
    |s| > 0 ==> !IsSpace(s[0]) && !IsSpace(s[|s| - 1])
  }

  function TrimStart(s: string): (r: string)
    ensures |r| <= |s| && r == s[|s| - |r|..]
    ensures AllSpace(s[..|s| - |r|])
    ensures |r| > 0 ==> !IsSpace(r[0])
    decreases |s|
  {
    if |s| > 0 && IsSpace(s[0]) then TrimStart(s[1..]) else s
  }

  function TrimEnd(s: string): (r: string)
    ensures |r| <= |s| && r == s[..|r|]
    ensures AllSpace(s[|r|..])
    ensures |r| > 0 ==> !IsSpace(r[|r| - 1])
    decreases |s|
  {
    if |s| > 0 && IsSpace(s[|s| - 1]) then TrimEnd(s[..|s| - 1]) else s
  }

  /** `trim()`. */
  function Trim(s: string): (r: string)
    ensures IsTrimmed(r)
  {
    TrimEnd(TrimStart(s))
  }

  /** `trim()` removes the white space at both ends and nothing else. */
  lemma TrimRemovesSpace(s: string)
    ensures var r := Trim(s);
            exists i :: 0 <= i <= |s| - |r| && r == s[i..i + |r|]
                        && AllSpace(s[..i]) && AllSpace(s[i + |r|..])
  {
    var a := TrimStart(s);
    var r := TrimEnd(a);
    assert r == Trim(s);
    var i := |s| - |a|;
    SliceOfSuffix(s, a, r, i);
    assert AllSpace(s[..i]);
    assert AllSpace(s[i + |r|..]) by {
      assert s[i + |r|..] == a[|r|..];
    }
    assert 0 <= i <= |s| - |r| && r == s[i..i + |r|];
  }

  lemma SliceOfSuffix(s: string, a: string, r: string, i: nat)
    requires i + |a| == |s| && a == s[i..] && |r| <= |a| && r == a[..|r|]
    ensures r == s[i..i + |r|] && s[i + |r|..] == a[|r|..]
  {
  }

  lemma TrimOfTrimmed(s: string)
    requires IsTrimmed(s)
    ensures Trim(s) == s
  {
  }

  lemma TrimIdempotent(s: string)
    ensures Trim(Trim(s)) == Trim(s)
  {
    TrimOfTrimmed(Trim(s));
  }

  /** White space before a text that starts with something else is exactly
      what `TrimStart` removes. */
  lemma {:induction false} TrimStartPadded(a: string, s: string)
    requires AllSpace(a) && (s == [] || !IsSpace(s[0]))
    ensures TrimStart(a + s) == s
    decreases |a|
  {
    if a != [] {
      assert (a + s)[1..] == a[1..] + s;
      TrimStartPadded(a[1..], s);
    } else {
      assert a + s == s;
    }
  }

  /** White space after a text that ends with something else is exactly
      what `TrimEnd` removes. */
  lemma {:induction false} TrimEndPadded(s: string, b: string)
    requires AllSpace(b) && (s == [] || !IsSpace(s[|s| - 1]))
    ensures TrimEnd(s + b) == s
    decreases |b|
  {
    if b != [] {
      assert (s + b)[..|s + b| - 1] == s + b[..|b| - 1];
      TrimEndPadded(s, b[..|b| - 1]);
    } else {
      assert s + b == s;
    }
  }

  /** `trim()` of a trimmed text padded with white space on both sides
      gives the text back. */
  lemma TrimPadded(a: string, s: string, b: string)
    requires AllSpace(a) && AllSpace(b) && IsTrimmed(s)
    ensures Trim(a + s + b) == s
  {
    if s == [] {
      assert a + s + b == a + b;
      TrimStartPadded(a + b, []);
      assert a + b + [] == a + b;
    } else {
      assert a + s + b == a + (s + b);
      TrimStartPadded(a, s + b);
      TrimEndPadded(s, b);
    }
  }

  /** A blank in front changes nothing `trim()` returns. */
  lemma TrimSpaceBefore(s: string)
    ensures Trim(" " + s) == Trim(s)
  {
    assert (" " + s)[1..] == s;
  }

  /** Joining pieces free of a separator, with a glue free of it, gives a
      text free of it. */
  lemma {:induction false} JoinFreeOf(xs: seq<string>, d: string, sep: Sep)
    requires forall i :: 0 <= i < |xs| ==> FreeOf(xs[i], sep)
    requires FreeOf(d, sep)
    ensures FreeOf(Join(xs, d), sep)
  {
    if |xs| > 1 {
      JoinFreeOf(xs[1..], d, sep);
      var j := xs[0] + d + Join(xs[1..], d);
      forall k | 0 <= k < |j|
        ensures !IsSep(sep, j[k])
      {
        if k < |xs[0]| {
          assert j[k] == xs[0][k];
        } else if k < |xs[0]| + |d| {
          assert j[k] == d[k - |xs[0]|];
        } else {
          assert j[k] == Join(xs[1..], d)[k - |xs[0]| - |d|];
        }
      }
    }
  }

  /** Joining non-empty trimmed pieces gives a non-empty trimmed text. */
  lemma {:induction false} JoinTrimmed(xs: seq<string>, d: string)
    requires |xs| >= 1
    requires forall i :: 0 <= i < |xs| ==> xs[i] != "" && IsTrimmed(xs[i])
    ensures Join(xs, d) != "" && IsTrimmed(Join(xs, d))
  {
    if |xs| > 1 {
      JoinTrimmed(xs[1..], d);
      var j := Join(xs[1..], d);
      var r := xs[0] + d + j;
      assert r[0] == xs[0][0];
      assert r[|r| - 1] == j[|j| - 1];
    }
  }

  /** Keeps the non-empty strings, in order (`filter(Boolean)`). */
  function NonEmpty(xs: seq<string>): (r: seq<string>)
    ensures forall i :: 0 <= i < |r| ==> r[i] != ""
    ensures forall x :: x in r <==> x in xs && x != ""
    ensures |r| <= |xs|
  {
    if xs == [] then []
    else if xs[0] == "" then NonEmpty(xs[1..])
    else [xs[0]] + NonEmpty(xs[1..])
  }

  /** `filter(Boolean)` of a concatenation is the concatenation of the
      filtered parts, so order and repetitions are kept. */
  lemma {:induction false} NonEmptyConcat(xs: seq<string>, ys: seq<string>)
    ensures NonEmpty(xs + ys) == NonEmpty(xs) + NonEmpty(ys)
  {
    if xs == [] {
      assert xs + ys == ys;
    } else {
      assert (xs + ys)[0] == xs[0];
      assert (xs + ys)[1..] == xs[1..] + ys;
      NonEmptyConcat(xs[1..], ys);
    }
  }

  /** A single string survives the filter exactly when it is non-empty. */
  lemma NonEmptyOne(x: string)
    ensures NonEmpty([x]) == if x == "" then [] else [x]
  {
    assert [x][1..] == [];
  }

  /** With no empty string in it, the filter keeps the whole sequence. */
  lemma {:induction false} NonEmptyKeepsAll(xs: seq<string>)
    requires forall i :: 0 <= i < |xs| ==> xs[i] != ""
    ensures NonEmpty(xs) == xs
  {
    if xs != [] {
      NonEmptyKeepsAll(xs[1..]);
      assert xs == [xs[0]] + xs[1..];
    }
  }

  function TrimAll(xs: seq<string>): (r: seq<string>)
    ensures |r| == |xs|
    ensures forall i :: 0 <= i < |xs| ==> r[i] == Trim(xs[i])
    ensures forall i :: 0 <= i < |r| ==> IsTrimmed(r[i])
  {
    if xs == [] then []
    else
      var rest := TrimAll(xs[1..]);
      var r := [Trim(xs[0])] + rest;
      assert forall i :: 1 <= i < |r| ==> r[i] == rest[i - 1];
      r
  }

  /** Trimming pieces that are already trimmed changes nothing. */
  lemma TrimAllTrimmed(xs: seq<string>)
    requires forall i :: 0 <= i < |xs| ==> IsTrimmed(xs[i])
    ensures TrimAll(xs) == xs
  {
    forall i | 0 <= i < |xs|
      ensures TrimAll(xs)[i] == xs[i]
    {
      TrimOfTrimmed(xs[i]);
    }
  }

  /** Trimming piecewise distributes over concatenation. */
  lemma {:induction false} TrimAllConcat(xs: seq<string>, ys: seq<string>)
    ensures TrimAll(xs + ys) == TrimAll(xs) + TrimAll(ys)
  {
    if xs == [] {
      assert xs + ys == ys;
    } else {
      assert (xs + ys)[0] == xs[0];
      assert (xs + ys)[1..] == xs[1..] + ys;
      TrimAllConcat(xs[1..], ys);
    }
  }

  /** Splitting distributes over one separator character: the pieces of
      `a`, then the pieces of `b`. */
  lemma {:induction false} SplitConcat(a: string, b: string, c: char, sep: Sep)
    requires IsSep(sep, c)
    ensures Split(a + [c] + b, sep) == Split(a, sep) + Split(b, sep)
    decreases |a|
  {
    if a == [] {
      assert a + [c] + b == [c] + b;
      SplitCons(c, b, sep);
    } else {
      SplitConcat(a[1..], b, c, sep);
      SplitConcatStep(a[0], a[1..], b, c, sep);
      assert a == [a[0]] + a[1..];
      assert a + [c] + b == [a[0]] + a[1..] + [c] + b;
    }
  }

  /** The inductive step of `SplitConcat`: one more character in front. */
  lemma SplitConcatStep(x: char, a: string, b: string, c: char, sep: Sep)
    requires Split(a + [c] + b, sep) == Split(a, sep) + Split(b, sep)
    ensures Split([x] + a + [c] + b, sep) == Split([x] + a, sep) + Split(b, sep)
  {
    var t := a + [c] + b;
    assert [x] + a + [c] + b == [x] + t;
    SplitCons(x, t, sep);
    SplitCons(x, a, sep);
    ConsPieces(x, Split(t, sep), Split(a, sep), Split(b, sep), sep);
  }

  /** The step `Split` takes for a leading character commutes with
      appending further pieces. */
  lemma ConsPieces(x: char, q: seq<string>, qa: seq<string>, qb: seq<string>, sep: Sep)
    requires q == qa + qb && |qa| >= 1
    ensures (if IsSep(sep, x) then [""] + q else [[x] + q[0]] + q[1..])
            == (if IsSep(sep, x) then [""] + qa else [[x] + qa[0]] + qa[1..]) + qb
  {
    if !IsSep(sep, x) {
      assert q[0] == qa[0];
      assert q[1..] == qa[1..] + qb;
    }
  }

  /** One step of `Split`: a separator at the front opens a new empty
      piece, any other character joins the first piece of the rest. */
  lemma SplitCons(x: char, t: string, sep: Sep)
    ensures Split([x] + t, sep)
            == if IsSep(sep, x) then [""] + Split(t, sep)
               else [[x] + Split(t, sep)[0]] + Split(t, sep)[1..]
  {
    assert ([x] + t)[0] == x;
    assert ([x] + t)[1..] == t;
  }


  predicate AllSep(s: string, sep: Sep) {
    forall k :: 0 <= k < |s| ==> IsSep(sep, s[k])
  }

  /** Non-empty pieces free of the separator. */
  predicate Words(ws: seq<string>, sep: Sep) {
    forall i :: 0 <= i < |ws| ==> ws[i] != "" && FreeOf(ws[i], sep)
  }

  /** Non-empty runs made only of separators. */
  predicate Gaps(gs: seq<string>, sep: Sep) {
    forall i :: 0 <= i < |gs| ==> gs[i] != "" && AllSep(gs[i], sep)
  }

  /** The words `ws` with the gap `gs[i]` between `ws[i]` and `ws[i + 1]`. */
  function Weave(ws: seq<string>, gs: seq<string>): string
    requires |gs| + 1 == |ws|
    decreases |gs|
  {
    if gs == [] then ws[0] else ws[0] + gs[0] + Weave(ws[1..], gs[1..])
  }

  /** A leading run of separators contributes only empty pieces. */
  lemma {:induction false} SepPrefix(g: string, x: string, sep: Sep)
    requires g != [] && AllSep(g, sep)
    ensures Split(g + x, sep)[0] == ""
    ensures NonEmpty(Split(g + x, sep)) == NonEmpty(Split(x, sep))
    decreases |g|
  {
    var s := g + x;
    assert s[0] == g[0];
    assert s[1..] == g[1..] + x;
    if |g| == 1 {
      assert g[1..] + x == x;
    } else {
      SepPrefix(g[1..], x, sep);
    }
  }

  /** Splitting words woven with separator runs, and dropping the empty
      pieces, gives back exactly the words; the first piece is the first
      word. */
  lemma {:induction false} SplitWeave(ws: seq<string>, gs: seq<string>, sep: Sep)
    requires |gs| + 1 == |ws| && Words(ws, sep) && Gaps(gs, sep)
    ensures Split(Weave(ws, gs), sep)[0] == ws[0]
    ensures NonEmpty(Split(Weave(ws, gs), sep)) == ws
    decreases |gs|
  {
    if gs == [] {
      SplitFree(ws[0], sep);
      NonEmptyOne(ws[0]);
    } else {
      var rest := Weave(ws[1..], gs[1..]);
      var s := Weave(ws, gs);
      assert s == ws[0] + (gs[0] + rest);
      SplitFreePrefix(ws[0], gs[0] + rest, sep);
      var q := Split(gs[0] + rest, sep);
      SepPrefix(gs[0], rest, sep);
      SplitWeave(ws[1..], gs[1..], sep);
      assert ws[0] + q[0] == ws[0];
      var p := Split(s, sep);
      assert p == [ws[0]] + q[1..];
      assert NonEmpty(q) == NonEmpty(q[1..]);
      assert NonEmpty(p) == [ws[0]] + NonEmpty(q[1..]);
      assert ws == [ws[0]] + ws[1..];
    }
  }

  /** Woven words begin and end with a word character. */
  lemma {:induction false} WeaveTrimmed(ws: seq<string>, gs: seq<string>)
    requires |gs| + 1 == |ws| && Words(ws, Space)
    ensures Weave(ws, gs) != "" && IsTrimmed(Weave(ws, gs))
    decreases |gs|
  {
    var s := Weave(ws, gs);
    if gs != [] {
      var rest := Weave(ws[1..], gs[1..]);
      WeaveTrimmed(ws[1..], gs[1..]);
      assert s[0] == ws[0][0];
      assert s[|s| - 1] == rest[|rest| - 1];
    }
  }

  /** `s.split(/\s+/)`: cuts at maximal runs of white space; an empty piece
      survives only at the very start or very end. */
  function SplitOnSpaceRuns(s: string): (r: seq<string>)
    ensures |r| >= 1
    ensures forall i :: 0 <= i < |r| ==> FreeOf(r[i], Space)
    ensures s == "" ==> r == [""]
    ensures s != "" && IsTrimmed(s) ==> forall i :: 0 <= i < |r| ==> r[i] != ""
  {
    var p := Split(s, Space);
    if |p| == 1 then p
    else
      var mid := NonEmpty(p[1..|p| - 1]);
      assert forall i :: 0 <= i < |mid| ==> FreeOf(mid[i], Space) by {
        forall i | 0 <= i < |mid|
          ensures FreeOf(mid[i], Space)
        {
          assert mid[i] in p[1..|p| - 1];
        }
      }
      SplitEnds(s, Space);
      [p[0]] + mid + [Last(p)]
  }

  /** Two words with one blank between them split into the two words. */
  lemma SplitOnSpaceRunsPair(a: string, b: string)
    requires a != "" && b != "" && FreeOf(a, Space) && FreeOf(b, Space)
    ensures SplitOnSpaceRuns(a + " " + b) == [a, b]
  {
    var s := a + " " + b;
    assert s == a + (" " + b);
    SplitFreePrefix(a, " " + b, Space);
    assert Split(" " + b, Space) == [""] + Split(b, Space) by {
      assert (" " + b)[1..] == b;
    }
    SplitFree(b, Space);
    assert a + "" == a;
    var p := Split(s, Space);
    assert p == [a, b];
    assert NonEmpty(p[1..|p| - 1]) == [];
  }

  /** On a non-empty trimmed text, `split(/\s+/)` gives exactly the
      non-empty white-space-free pieces, in order. */
  lemma SplitOnSpaceRunsPieces(s: string)
    requires s != "" && IsTrimmed(s)
    ensures SplitOnSpaceRuns(s) == NonEmpty(Split(s, Space))
  {
    var p := Split(s, Space);
    SpaceEnds(s);
    if |p| == 1 {
      NonEmptyOne(p[0]);
      assert p == [p[0]];
    } else {
      var mid := p[1..|p| - 1];
      assert p == [p[0]] + mid + [Last(p)];
      NonEmptyFramed(p[0], mid, Last(p));
    }
  }

  /** A trimmed non-empty text neither starts nor ends with an empty piece. */
  lemma SpaceEnds(s: string)
    requires s != "" && IsTrimmed(s)
    ensures Split(s, Space)[0] != "" && Last(Split(s, Space)) != ""
  {
    SplitEnds(s, Space);
  }

  /** Dropping empty pieces leaves non-empty ends in place. */
  lemma NonEmptyFramed(x: string, mid: seq<string>, y: string)
    requires x != "" && y != ""
    ensures NonEmpty([x] + mid + [y]) == [x] + NonEmpty(mid) + [y]
  {
    NonEmptyConcat([x] + mid, [y]);
    NonEmptyConcat([x], mid);
    NonEmptyOne(x);
    NonEmptyOne(y);
  }

  /** Words separated by runs of white space split into exactly those
      words, whatever the runs are. */
  lemma SplitOnSpaceRunsWeave(ws: seq<string>, gs: seq<string>)
    requires |gs| + 1 == |ws| && Words(ws, Space) && Gaps(gs, Space)
    ensures SplitOnSpaceRuns(Weave(ws, gs)) == ws
  {
    WeaveTrimmed(ws, gs);
    SplitOnSpaceRunsPieces(Weave(ws, gs));
    SplitWeave(ws, gs, Space);
  }

  /** `n` copies of the delimiter `d`. */
  function Repeat(d: string, n: nat): (r: seq<string>)
    ensures |r| == n
    ensures forall i :: 0 <= i < n ==> r[i] == d
  {
    if n == 0 then [] else [d] + Repeat(d, n - 1)
  }

  /** Joining with a fixed delimiter weaves that delimiter between every
      two neighbours. */
  lemma {:induction false} JoinWeave(ws: seq<string>, d: string)
    requires |ws| >= 1
    ensures Join(ws, d) == Weave(ws, Repeat(d, |ws| - 1))
    decreases |ws|
  {
    if |ws| > 1 {
      JoinWeave(ws[1..], d);
      assert Repeat(d, |ws| - 1)[1..] == Repeat(d, |ws[1..]| - 1);
    }
  }

  /** Words joined by single blanks split back into those words. */
  lemma SplitOnSpaceRunsJoin(ws: seq<string>)
    requires |ws| >= 1 && Words(ws, Space)
    ensures SplitOnSpaceRuns(Join(ws, " ")) == ws
  {
    var gs := Repeat(" ", |ws| - 1);
    JoinWeave(ws, " ");
    assert Gaps(gs, Space);
    SplitOnSpaceRunsWeave(ws, gs);
  }

  /** Lower-casing works character by character, so it distributes over
      concatenation. */
  lemma {:induction false} LowerConcat(a: string, b: string)
    ensures Lower(a + b) == Lower(a) + Lower(b)
  {
    if a == [] {
      assert a + b == b;
    } else {
      assert (a + b)[0] == a[0];
      assert (a + b)[1..] == a[1..] + b;
      LowerConcat(a[1..], b);
    }
  }

  function LowerAll(xs: seq<string>): (r: seq<string>)
    ensures |r| == |xs|
    ensures forall i :: 0 <= i < |xs| ==> r[i] == Lower(xs[i])
  {
    seq(|xs|, i requires 0 <= i < |xs| => Lower(xs[i]))
  }

  /** Lower-casing woven words lower-cases each word and each gap. */
  lemma {:induction false} LowerWeave(ws: seq<string>, gs: seq<string>)
    requires |gs| + 1 == |ws|
    ensures Lower(Weave(ws, gs)) == Weave(LowerAll(ws), LowerAll(gs))
    decreases |gs|
  {
    if gs != [] {
      var rest := Weave(ws[1..], gs[1..]);
      LowerWeave(ws[1..], gs[1..]);
      LowerConcat(ws[0] + gs[0], rest);
      LowerConcat(ws[0], gs[0]);
      assert LowerAll(ws)[1..] == LowerAll(ws[1..]);
      assert LowerAll(gs)[1..] == LowerAll(gs[1..]);
    }
  }

  /** A run of separators, possibly empty, has no non-empty piece. */
  lemma BlankPieces(g: string, sep: Sep)
    requires AllSep(g, sep)
    ensures NonEmpty(Split(g, sep)) == []
  {
    NonEmptyOne("");
    if g != [] {
      SepPrefix(g, "", sep);
      assert g + "" == g;
    }
  }

  /** Separator runs around a text add no non-empty piece. */
  lemma PaddedPieces(lead: string, x: string, trail: string, sep: Sep)
    requires AllSep(lead, sep) && AllSep(trail, sep)
    ensures NonEmpty(Split(lead + x + trail, sep)) == NonEmpty(Split(x, sep))
  {
    var y := x + trail;
    if trail != [] {
      assert y == x + [trail[0]] + trail[1..];
      SplitConcat(x, trail[1..], trail[0], sep);
      NonEmptyConcat(Split(x, sep), Split(trail[1..], sep));
      BlankPieces(trail[1..], sep);
      assert NonEmpty(Split(x, sep)) + [] == NonEmpty(Split(x, sep));
    } else {
      assert y == x;
    }
    assert lead + x + trail == lead + y;
    if lead != [] {
      SepPrefix(lead, y, sep);
    } else {
      assert lead + y == y;
    }
  }

  /** `s.includes(t)`: `t` occurs as a contiguous piece of `s`. */
  predicate Includes(s: string, t: string) {
    exists i :: 0 <= i <= |s| - |t| && OccursAt(s, t, i)
  }

  predicate OccursAt(s: string, t: string, i: nat)
    requires i + |t| <= |s|
  {
    s[i..i + |t|] == t
  }

  lemma EmptyIncluded(s: string)
    ensures Includes(s, "")
  {
    assert OccursAt(s, "", 0);
  }
}
