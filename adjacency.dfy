/** The dependency matrix builder: each activity's predecessor cell is read
    as comma-separated 1-based labels, and entry `[p - 1, idx]` of an n×n
    0/1 matrix is set when activity `idx` lists `p`. */
module Adjacency {
  import opened Model
  import opened Text

  /** The tokens of a predecessor cell: nothing when the stripped cell is
      empty or the text "nan" (an empty cell), else its comma-split pieces.
      The pieces themselves are not stripped. */
  function Tokens(cell: string): seq<string>
  {
    var s := Strip(cell);
    if s == "" || s == "nan" then [] else Split(s)
  }

  /** The label one token contributes: its value when it is all digits,
      nothing otherwise (" 2", "-1", "2.0", ""). */
  function Ref(t: string): seq<nat>
  {
    if IsDigits(t) then [DigitsValue(t)] else []
  }

  /** The values of the all-digit tokens, in order. */
  function Refs(toks: seq<string>): seq<nat>
  {
    if toks == [] then [] else Ref(toks[0]) + Refs(toks[1..])
  }

  /** The 1-based labels a predecessor cell refers to. */
  function Predecessors(cell: string): seq<nat>
  {
    Refs(Tokens(cell))
  }

  /** The matrix row that label `p` writes in an n-row matrix: index
      `p - 1`, where -1 counts from the end and so means the last row. */
  function RowOf(p: nat, n: nat): int
  {
    if p == 0 then n - 1 else p - 1
  }

  /** Some label in the list writes row `r`. */
  predicate Hits(refs: seq<nat>, n: nat, r: int)
  {
    exists p :: p in refs && RowOf(p, n) == r
  }

  /** Entry `[r, c]` of the matrix is set: activity `c` lists a label that
      writes row `r`. */
  predicate Links(acts: seq<Activity>, r: int, c: nat)
    requires c < |acts|
  {
    Hits(Predecessors(acts[c].predecessors), |acts|, r)
  }

  /** No label in the list is beyond the last row. */
  predicate InRange(refs: seq<nat>, n: nat)
  {
    forall p :: p in refs ==> p <= n
  }

  /** Some activity lists a label greater than the number of activities,
      which indexes past the last row. */
  predicate OutOfRange(acts: seq<Activity>)
  {
    exists c :: 0 <= c < |acts| && !InRange(Predecessors(acts[c].predecessors), |acts|)
  }

  function Bit(b: bool): int
  {
    if b then 1 else 0
  }

  /** The tokens read from a list split in two are those of the first part
      followed by those of the second. */
  lemma {:induction false} RefsAppend(a: seq<string>, b: seq<string>)
    ensures Refs(a + b) == Refs(a) + Refs(b)
  {
    if a == [] {
      assert a + b == b;
    } else {
      assert (a + b)[0] == a[0];
      assert (a + b)[1..] == a[1..] + b;
      RefsAppend(a[1..], b);
      calc {
        Refs(a + b);
        Ref(a[0]) + Refs(a[1..] + b);
        Ref(a[0]) + (Refs(a[1..]) + Refs(b));
        (Ref(a[0]) + Refs(a[1..])) + Refs(b);
      }
    }
  }

  /** Reading one more token adds its label, if any, at the end. */
  lemma {:induction false} RefsSnoc(toks: seq<string>, t: string)
    ensures Refs(toks + [t]) == Refs(toks) + Ref(t)
  {
    RefsAppend(toks, [t]);
    assert Refs([t]) == Ref(t) + Refs([]) by { assert [t][1..] == []; }
  }

  lemma {:induction false} HitsConcat(a: seq<nat>, b: seq<nat>, n: nat, r: int)
    ensures Hits(a + b, n, r) <==> Hits(a, n, r) || Hits(b, n, r)
  {
    if Hits(a + b, n, r) {
      var p :| p in a + b && RowOf(p, n) == r;
      assert p in a || p in b;
    }
    if Hits(a, n, r) {
      var p :| p in a && RowOf(p, n) == r;
      assert p in a + b;
    }
    if Hits(b, n, r) {
      var p :| p in b && RowOf(p, n) == r;
      assert p in a + b;
    }
  }

  lemma {:induction false} InRangeConcat(a: seq<nat>, b: seq<nat>, n: nat)
    ensures InRange(a + b, n) <==> InRange(a, n) && InRange(b, n)
  {
    if InRange(a + b, n) {
      forall p | p in a ensures p <= n { assert p in a + b; }
      forall p | p in b ensures p <= n { assert p in a + b; }
    }
  }

  /** Reading one more token adds its label, if any, to the rows hit. */
  lemma {:induction false} HitsSnoc(toks: seq<string>, t: string, n: nat, r: int)
    ensures Hits(Refs(toks + [t]), n, r) <==>
      Hits(Refs(toks), n, r) || (IsDigits(t) && RowOf(DigitsValue(t), n) == r)
    ensures InRange(Refs(toks + [t]), n) <==> InRange(Refs(toks), n) && (IsDigits(t) ==> DigitsValue(t) <= n)
  {
    RefsSnoc(toks, t);
    HitsConcat(Refs(toks), Ref(t), n, r);
    InRangeConcat(Refs(toks), Ref(t), n);
    if IsDigits(t) {
      assert Ref(t) == [DigitsValue(t)];
      assert Hits(Ref(t), n, r) <==> RowOf(DigitsValue(t), n) == r;
    } else {
      assert Ref(t) == [];
    }
  }

  /** A label is read exactly when some token is all digits with that
      value. */
  lemma {:induction false} RefsSpec(toks: seq<string>, p: nat)
    ensures p in Refs(toks) <==> exists j :: 0 <= j < |toks| && IsDigits(toks[j]) && DigitsValue(toks[j]) == p
  {
    if toks != [] {
      RefsSpec(toks[1..], p);
      if p in Refs(toks[1..]) {
        var j :| 0 <= j < |toks| - 1 && IsDigits(toks[1..][j]) && DigitsValue(toks[1..][j]) == p;
        assert toks[j + 1] == toks[1..][j];
      }
      if exists j :: 0 <= j < |toks| && IsDigits(toks[j]) && DigitsValue(toks[j]) == p {
        var j :| 0 <= j < |toks| && IsDigits(toks[j]) && DigitsValue(toks[j]) == p;
        if j > 0 {
          assert toks[1..][j - 1] == toks[j];
        }
      }
    }
  }

  /** Listing a token a second time sets no further entry. */
  lemma {:induction false} DuplicateTokenIdempotent(toks: seq<string>, t: string, n: nat, r: int)
    requires t in toks
    ensures Hits(Refs(toks + [t]), n, r) <==> Hits(Refs(toks), n, r)
  {
    HitsSnoc(toks, t, n, r);
    if IsDigits(t) {
      var j :| 0 <= j < |toks| && toks[j] == t;
      RefsSpec(toks, DigitsValue(t));
    }
  }

  /** How an editor writes a list of labels into a cell: decimal numbers
      joined by commas. */
  function FormatLabels(ps: seq<nat>): string
  {
    Join(Numerals(ps))
  }

  function Numerals(ps: seq<nat>): (r: seq<string>)
    ensures |r| == |ps|
    ensures forall k :: 0 <= k < |ps| ==> r[k] == NatToString(ps[k])
  {
    if ps == [] then [] else [NatToString(ps[0])] + Numerals(ps[1..])
  }

  /** A cell written from a list of labels reads back as that list. */
  lemma {:induction false} FormatLabelsRoundTrip(ps: seq<nat>)
    ensures Predecessors(FormatLabels(ps)) == ps
  {
    var pieces := Numerals(ps);
    if ps == [] {
      assert FormatLabels(ps) == "";
      assert Strip("") == "";
    } else {
      forall k | 0 <= k < |ps| ensures IsDigits(pieces[k]) && DigitsValue(pieces[k]) == ps[k] {
        NatToStringRoundTrip(ps[k]);
      }
      TokensOfDigitPieces(pieces);
      AllDigitsRefs(pieces, ps);
    }
  }

  /** A cell made of all-digit pieces joined by commas splits back into
      those pieces. */
  lemma {:induction false} TokensOfDigitPieces(pieces: seq<string>)
    requires |pieces| >= 1 && forall k :: 0 <= k < |pieces| ==> IsDigits(pieces[k])
    ensures Tokens(Join(pieces)) == pieces
  {
    var cell := Join(pieces);
    assert CommaFree(pieces) by {
      forall k | 0 <= k < |pieces| ensures ',' !in pieces[k] {
        assert IsDigits(pieces[k]);
      }
    }
    SplitJoin(pieces);
    JoinStartsWith(pieces);
    JoinEndsWith(pieces);
    assert IsDigit(pieces[0][0]);
    assert IsDigit(pieces[|pieces| - 1][|pieces[|pieces| - 1]| - 1]);
    StripDigitEnds(cell);
    assert cell != "nan" by { assert IsDigit(cell[0]); }
  }

  /** Stripping leaves alone a text that starts and ends with a digit. */
  lemma {:induction false} StripDigitEnds(cell: string)
    requires |cell| > 0 && IsDigit(cell[0]) && IsDigit(cell[|cell| - 1])
    ensures Strip(cell) == cell
  {
    assert cell[0] !in WhiteSpace;
    assert cell[|cell| - 1] !in WhiteSpace;
    assert StripLeft(cell, WhiteSpace) == cell;
  }

  /** A list of all-digit tokens reads as their values. */
  lemma {:induction false} AllDigitsRefs(pieces: seq<string>, ps: seq<nat>)
    requires |pieces| == |ps|
    requires forall k :: 0 <= k < |ps| ==> IsDigits(pieces[k]) && DigitsValue(pieces[k]) == ps[k]
    ensures Refs(pieces) == ps
  {
    if pieces != [] {
      AllDigitsRefs(pieces[1..], ps[1..]);
    }
  }

  /** The join of non-empty pieces starts with the first character of the
      first piece. */
  lemma {:induction false} JoinStartsWith(pieces: seq<string>)
    requires |pieces| >= 1 && |pieces[0]| >= 1
    ensures |Join(pieces)| >= 1 && Join(pieces)[0] == pieces[0][0]
  {
  }

  /** The join of non-empty pieces ends with the last character of the last
      piece. */
  lemma {:induction false} JoinEndsWith(pieces: seq<string>)
    requires |pieces| >= 1 && forall k :: 0 <= k < |pieces| ==> |pieces[k]| >= 1
    ensures var j := Join(pieces); var l := pieces[|pieces| - 1];
      |j| >= 1 && j[|j| - 1] == l[|l| - 1]
  {
    if |pieces| > 1 {
      JoinEndsWith(pieces[1..]);
    }
  }

  /** The inner loop of generar_matriz_adyacencia: for each all-digit
      token `p` of one activity's cell, sets entry `[p - 1, idx]`, stopping
      with `false` at the first label beyond the last row. */
  method MarkColumn(m: array2<int>, idx: nat, toks: seq<string>) returns (ok: bool)
    requires idx < m.Length1 && m.Length0 == m.Length1
    requires forall r :: 0 <= r < m.Length0 ==> m[r, idx] == 0
    modifies m
    ensures ok <==> InRange(Refs(toks), m.Length0)
    ensures ok ==> forall r, c :: 0 <= r < m.Length0 && 0 <= c < m.Length1 ==>
      m[r, c] == (if c == idx then Bit(Hits(Refs(toks), m.Length0, r)) else old(m[r, c]))
  {
    var n := m.Length0;
    for k := 0 to |toks|
      invariant forall r, c :: 0 <= r < n && 0 <= c < m.Length1 ==>
        m[r, c] == (if c == idx then Bit(Hits(Refs(toks[..k]), n, r)) else old(m[r, c]))
      invariant InRange(Refs(toks[..k]), n)
    {
      assert toks[..k + 1] == toks[..k] + [toks[k]];
      RefsSnoc(toks[..k], toks[k]);
      forall r | 0 <= r < n
        ensures Hits(Refs(toks[..k + 1]), n, r) <==>
          Hits(Refs(toks[..k]), n, r) || (IsDigits(toks[k]) && RowOf(DigitsValue(toks[k]), n) == r)
      {
        HitsSnoc(toks[..k], toks[k], n, r);
      }
      HitsSnoc(toks[..k], toks[k], n, 0);
      if IsDigits(toks[k]) {
        var p := DigitsValue(toks[k]);
        if p > n {
          RefsAppend(toks[..k + 1], toks[k + 1..]);
          assert toks == toks[..k + 1] + toks[k + 1..];
          assert p in Refs(toks[..k + 1]);
          assert p in Refs(toks);
          return false;
        }
        m[RowOf(p, n), idx] := 1;
      }
    }
    assert toks[..|toks|] == toks;
    return true;
  }

  /** generar_matriz_adyacencia: allocates an n×n zero matrix, then, for
      each activity `idx` and each all-digit token `p` of its cell, sets
      entry `[p - 1, idx]`; a label beyond the last row aborts with an
      index error. */
  method BuildAdjacency(acts: seq<Activity>) returns (res: Result<array2<int>, Fault>)
    ensures res.Err? <==> OutOfRange(acts)
    ensures res.Ok? ==> fresh(res.value) && res.value.Length0 == |acts| && res.value.Length1 == |acts|
    ensures res.Ok? ==> forall r, c :: 0 <= r < |acts| && 0 <= c < |acts| ==>
      res.value[r, c] == Bit(Links(acts, r, c))
  {
    var n := |acts|;
    var m := new int[n, n]((_, _) => 0);
    for idx := 0 to n
      invariant forall r, c :: 0 <= r < n && 0 <= c < n ==> m[r, c] == Bit(c < idx && Links(acts, r, c))
      invariant forall c :: 0 <= c < idx ==> InRange(Predecessors(acts[c].predecessors), n)
    {
      var cell := Strip(acts[idx].predecessors);
      var toks := [];
      if cell != "" && cell != "nan" {
        toks := Split(cell);
      }
      assert Refs(toks) == Predecessors(acts[idx].predecessors);
      var ok := MarkColumn(m, idx, toks);
      if !ok {
        assert !InRange(Predecessors(acts[idx].predecessors), n);
        return Err(IndexError);
      }
      forall r, c | 0 <= r < n && 0 <= c < n
        ensures m[r, c] == Bit(c < idx + 1 && Links(acts, r, c))
      {
        if c == idx {
          assert Links(acts, r, idx) == Hits(Refs(toks), n, r);
        }
      }
    }
    assert !OutOfRange(acts);
    return Ok(m);
  }
}
