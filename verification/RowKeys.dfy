/** What a row's key says about its dimensions: texts joined by a separator, and when they can be told apart. */
module RowKeys {
  import opened Basics
  import opened Diff

  const SEPARATOR := '\U{1f}'

  // ---------------------------------------------------------------- pieces between separators

  function Pieces(s: string): (r: seq<string>)
    ensures r != []
  {
    if s == "" then [""]
    else
      var rest := Pieces(s[1..]);
      if s[0] == SEPARATOR then [""] + rest else [[s[0]] + rest[0]] + rest[1..]
  }

  function Glued(pieces: seq<string>): string
    requires pieces != []
  {
    if |pieces| == 1 then pieces[0] else pieces[0] + [SEPARATOR] + Glued(pieces[1..])
  }

  lemma {:induction false} GluedAgain(s: string)
    ensures Glued(Pieces(s)) == s
  {
    if s != "" {
      var rest := Pieces(s[1..]);
      GluedAgain(s[1..]);
      var all := Pieces(s);
      if s[0] == SEPARATOR {
        assert all[1..] == rest;
        assert "" + [SEPARATOR] + Glued(rest) == s;
      } else {
        assert all[0] == [s[0]] + rest[0] && all[1..] == rest[1..];
        assert s == [s[0]] + s[1..];
      }
    }
  }

  lemma {:induction false} PiecesOfTwo(s: string, t: string)
    ensures Pieces(s + [SEPARATOR] + t) == Pieces(s) + Pieces(t)
  {
    var all := s + [SEPARATOR] + t;
    if s == "" {
      assert all == [SEPARATOR] + t && all[1..] == t;
    } else {
      assert all[0] == s[0] && all[1..] == s[1..] + [SEPARATOR] + t;
      PiecesOfTwo(s[1..], t);
    }
  }

  lemma {:induction false} OnePiece(s: string)
    requires SEPARATOR !in s
    ensures Pieces(s) == [s]
  {
    if s != "" {
      assert s[0] in s;
      OnePiece(s[1..]);
      assert [s[0]] + s[1..] == s;
    }
  }

  // ---------------------------------------------------------------- the key of a row

  // The texts of the leading cells.
  function DimensionTexts(row: seq<Cell>, keys: nat): (r: seq<string>)
    ensures |r| == Min(keys, |row|)
  {
    seq(Min(keys, |row|), i requires 0 <= i < Min(keys, |row|) => TextOf(row[i]))
  }

  function AllPieces(texts: seq<string>): seq<string> {
    if texts == [] then [] else Pieces(texts[0]) + AllPieces(texts[1..])
  }

  // Without dimensions the key is the empty text.
  function KeyPieces(texts: seq<string>): (r: seq<string>)
    ensures r != []
  {
    if texts == [] then [""] else AllPieces(texts)
  }

  lemma {:induction false} PiecesOfKey(row: seq<Cell>, keys: nat)
    ensures Pieces(RowKey(row, keys)) == KeyPieces(DimensionTexts(row, keys))
    decreases |row|
  {
    var texts := DimensionTexts(row, keys);
    if keys == 0 || row == [] {
    } else if keys == 1 || |row| == 1 {
      assert texts == [TextOf(row[0])] && texts[1..] == [];
      assert AllPieces(texts) == Pieces(TextOf(row[0])) + [];
    } else {
      assert texts[1..] == DimensionTexts(row[1..], keys - 1);
      PiecesOfKey(row[1..], keys - 1);
      PiecesOfTwo(TextOf(row[0]), RowKey(row[1..], keys - 1));
    }
  }

  /** Two rows have one key exactly when their dimension texts, cut at the separators, are the same pieces. */
  lemma KeysMeetExactly(a: seq<Cell>, m: nat, b: seq<Cell>, n: nat)
    ensures RowKey(a, m) == RowKey(b, n) <==>
            KeyPieces(DimensionTexts(a, m)) == KeyPieces(DimensionTexts(b, n))
  {
    PiecesOfKey(a, m);
    PiecesOfKey(b, n);
    GluedAgain(RowKey(a, m));
    GluedAgain(RowKey(b, n));
  }

  // None of the leading cells holds the separator.
  predicate Clean(row: seq<Cell>, keys: nat) {
    forall i | 0 <= i < keys && i < |row| :: SEPARATOR !in TextOf(row[i])
  }

  predicate SameDimensions(a: seq<Cell>, b: seq<Cell>, keys: nat)
    requires keys <= |a| && keys <= |b|
  {
    forall i | 0 <= i < keys :: TextOf(a[i]) == TextOf(b[i])
  }

  lemma {:induction false} CleanPieces(texts: seq<string>)
    requires forall i | 0 <= i < |texts| :: SEPARATOR !in texts[i]
    ensures AllPieces(texts) == texts
  {
    if texts != [] {
      OnePiece(texts[0]);
      CleanPieces(texts[1..]);
      assert texts == [texts[0]] + texts[1..];
    }
  }

  /** Where no text holds the separator, two rows have one key exactly when each of their dimensions is spelled
    * alike.
    */
  lemma KeysTellRowsApart(a: seq<Cell>, b: seq<Cell>, keys: nat)
    requires keys <= |a| && keys <= |b| && Clean(a, keys) && Clean(b, keys)
    ensures RowKey(a, keys) == RowKey(b, keys) <==> SameDimensions(a, b, keys)
  {
    var s, t := DimensionTexts(a, keys), DimensionTexts(b, keys);
    KeysMeetExactly(a, keys, b, keys);
    CleanPieces(s);
    CleanPieces(t);
    assert s == t <==> SameDimensions(a, b, keys) by {
      assert forall i | 0 <= i < keys :: s[i] == TextOf(a[i]) && t[i] == TextOf(b[i]);
    }
  }

  /** Where one does, rows of different dimensions can have one key. */
  lemma SeparatorMovesOver(p: string, q: string, r: string)
    ensures var a, b := [Label(p + [SEPARATOR] + q), Label(r)], [Label(p), Label(q + [SEPARATOR] + r)];
            RowKey(a, 2) == RowKey(b, 2) && !SameDimensions(a, b, 2)
  {
    var a, b := [Label(p + [SEPARATOR] + q), Label(r)], [Label(p), Label(q + [SEPARATOR] + r)];
    assert a[1..] == [Label(r)] && b[1..] == [Label(q + [SEPARATOR] + r)];
    assert p + [SEPARATOR] + q + [SEPARATOR] + r == p + [SEPARATOR] + (q + [SEPARATOR] + r);
    assert |TextOf(a[0])| > |TextOf(b[0])|;
  }

  // ---------------------------------------------------------------- which rows are matched

  // How many rows before this one have its dimensions.
  function AlikeBefore(rows: seq<seq<Cell>>, keys: nat, i: nat): nat
    requires i < |rows| && forall r | r in rows :: keys <= |r|
  {
    |set p: nat | p < i && SameDimensions(rows[p], rows[i], keys)|
  }

  // The places of a key.
  function Places(ks: seq<string>, k: string): set<nat> {
    set p: nat | p < |ks| && ks[p] == k
  }

  lemma PlacesLast(ks: seq<string>, k: string)
    requires ks != []
    ensures var n := |ks| - 1;
            && Places(ks, k) == Places(ks[..n], k) + (if ks[n] == k then {n} else {})
            && n !in Places(ks[..n], k)
  {
  }

  lemma {:induction false} PositionsCount(ks: seq<string>, k: string)
    ensures |Positions(ks, k)| == |Places(ks, k)|
  {
    if ks == [] {
      assert Places(ks, k) == {};
    } else {
      PositionsCount(ks[..|ks| - 1], k);
      PlacesLast(ks, k);
      hide Places;
    }
  }

  lemma RankIsAlikeBefore(rows: seq<seq<Cell>>, keys: nat, i: nat)
    requires i < |rows| && forall r | r in rows :: keys <= |r| && Clean(r, keys)
    ensures Rank(RowKeys(rows, keys), i) == AlikeBefore(rows, keys, i)
  {
    var ks := RowKeys(rows, keys);
    PositionsCount(ks[..i], ks[i]);
    forall p: nat | p < i
      ensures ks[..i][p] == ks[i] <==> SameDimensions(rows[p], rows[i], keys)
    {
      assert rows[p] in rows && rows[i] in rows;
      KeysTellRowsApart(rows[p], rows[i], keys);
    }
    assert Places(ks[..i], ks[i]) == set p: nat | p < i && SameDimensions(rows[p], rows[i], keys);
  }

  /** Main result: rows are matched by all their dimensions. Where no text holds the separator, a row of now is
    * matched with a row of then exactly when every dimension is spelled alike in both, and as many rows before
    * the one as before the other have these dimensions.
    */
  lemma MatchedByDimensions(keys: nat, was: Table, now: Table, i: nat, j: nat)
    requires keys <= |was.cols| && keys <= |now.cols| && i < |was.rows| && j < |now.rows|
    requires forall r | r in was.rows :: keys <= |r| && Clean(r, keys)
    requires forall r | r in now.rows :: keys <= |r| && Clean(r, keys)
    ensures was.rows[i] in was.rows && now.rows[j] in now.rows
    ensures MatchOf(keys, was, now, i) == j <==>
            && SameDimensions(was.rows[i], now.rows[j], keys)
            && AlikeBefore(was.rows, keys, i) == AlikeBefore(now.rows, keys, j)
  {
    PartnerExactly(WasKeyTexts(keys, was), NowKeyTexts(keys, was, now), i, j);
    RankIsAlikeBefore(was.rows, keys, i);
    RankIsAlikeBefore(now.rows, keys, j);
    KeysTellRowsApart(was.rows[i], now.rows[j], keys);
  }
}
