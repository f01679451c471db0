/**
 * `TelegramSession.build_menu`: lay a flat list of buttons out as keyboard rows of
 * `n_cols` buttons, with an optional header row first and an optional footer row last.
 * Buttons are kept generic (`T`); the model never looks inside them.
 */
module Menu {
  import opened Wrappers

  /** `range(0, len(buttons), 0)` raises ValueError: a zero column count is an error. */
  datatype MenuError = ZeroColumns

  function Min(a: int, b: int): int { if a < b then a else b }

  /** The buttons of all rows, read row after row. */
  function Flatten<T>(rows: seq<seq<T>>): seq<T>
  {
    if rows == [] then [] else rows[0] + Flatten(rows[1..])
  }

  /** The rows `s[i:i + n]` for `i` in `range(0, len(s), n)`; Python clips a slice at the end. */
  function Chunks<T>(s: seq<T>, n: nat): seq<seq<T>>
    requires n > 0
    decreases |s|
  {
    if |s| == 0 then [] else [s[..Min(n, |s|)]] + Chunks(s[Min(n, |s|)..], n)
  }

  /**
   * The menu as `build_menu` returns it. A header or footer that is empty (Python
   * `None` and `[]` are both falsy) adds no row. A negative column count gives an
   * empty `range`, so no button rows at all.
   */
  function BuildMenu<T>(buttons: seq<T>, nCols: int, header: seq<T>, footer: seq<T>)
    : (r: Result<seq<seq<T>>, MenuError>)
    ensures r.Err? <==> nCols == 0
  {
    if nCols == 0 then Err(ZeroColumns)
    else
      var rows := if nCols > 0 then Chunks(buttons, nCols) else [];
      var withHeader := if header != [] then [header] + rows else rows;
      Ok(if footer != [] then withHeader + [footer] else withHeader)
  }

  /** Reading the chunks row by row gives back the buttons, in order. */
  lemma {:induction false} ChunksFlatten<T>(s: seq<T>, n: nat)
    requires n > 0
    ensures Flatten(Chunks(s, n)) == s
    decreases |s|
  {
    if |s| > 0 {
      var k := Min(n, |s|);
      ChunksFlatten(s[k..], n);
      assert s == s[..k] + s[k..];
    }
  }

  /** Every row but the last is full, the last is non-empty, and no buttons means no rows. */
  lemma {:induction false} ChunksShape<T>(s: seq<T>, n: nat)
    requires n > 0
    ensures Chunks(s, n) == [] <==> s == []
    ensures forall i :: 0 <= i < |Chunks(s, n)| - 1 ==> |Chunks(s, n)[i]| == n
    ensures Chunks(s, n) != [] ==> 0 < |Chunks(s, n)[|Chunks(s, n)| - 1]| <= n
    decreases |s|
  {
    if |s| > 0 {
      var k := Min(n, |s|);
      ChunksShape(s[k..], n);
      var rest := Chunks(s[k..], n);
      assert Chunks(s, n) == [s[..k]] + rest;
      forall i | 0 <= i < |Chunks(s, n)| - 1
        ensures |Chunks(s, n)[i]| == n
      {
        if i > 0 {
          assert Chunks(s, n)[i] == rest[i - 1];
        } else {
          assert |rest| > 0;
          assert |s[k..]| > 0;
        }
      }
    }
  }

  lemma MulStep(j: nat, n: nat)
    ensures (j + 1) * n == j * n + n
  {
  }

  /**
   * There are as many rows as `range(0, len(s), n)` has elements, that is the least
   * count whose rows of `n` cover `s`.
   */
  lemma {:induction false} ChunksCount<T>(s: seq<T>, n: nat)
    requires n > 0
    ensures s != [] ==> (|Chunks(s, n)| - 1) * n < |s| <= |Chunks(s, n)| * n
    decreases |s|
  {
    if 0 < |s| <= n {
      assert Chunks(s[|s|..], n) == [];
    } else if |s| > n {
      ChunksCount(s[n..], n);
      assert |Chunks(s, n)| == |Chunks(s[n..], n)| + 1;
      MulStep(|Chunks(s[n..], n)|, n);
      MulStep(|Chunks(s[n..], n)| - 1, n);
    }
  }

  /**
   * The recursive definition agrees with the comprehension in the source: row `i`
   * is the slice `s[i * n : i * n + n]`.
   */
  lemma {:induction false} ChunksRow<T>(s: seq<T>, n: nat, i: nat)
    requires n > 0 && i < |Chunks(s, n)|
    ensures i * n < |s| && Chunks(s, n)[i] == s[i * n .. Min(i * n + n, |s|)]
    decreases |s|
  {
    if i > 0 {
      var k := Min(n, |s|);
      var rest := s[k..];
      var j := i - 1;
      assert Chunks(s, n)[i] == Chunks(rest, n)[j] by {
        assert Chunks(s, n) == [s[..k]] + Chunks(rest, n);
      }
      ChunksRow(rest, n, j);
      var lo := j * n;
      assert i * n == lo + n by {
        MulStep(j, n);
      }
      var hi := Min(lo + n, |rest|);
      assert k == n;
      SliceShift(s, n, lo, hi);
    }
  }

  /** A slice of a suffix is the slice of the whole shifted by the suffix's start. */
  lemma SliceShift<T>(s: seq<T>, k: nat, lo: nat, hi: nat)
    requires k <= |s| && lo <= hi <= |s| - k
    ensures s[k..][lo..hi] == s[k + lo .. k + hi]
  {
    var a := s[k..][lo..hi];
    var b := s[k + lo .. k + hi];
    forall m | 0 <= m < hi - lo ensures a[m] == b[m] {
      assert a[m] == s[k + lo + m];
    }
  }

  /**
   * With a positive column count and no header or footer, the menu is a row layout of
   * exactly the given buttons: they come back in order, every row but the last holds
   * `nCols` buttons, the last holds between one and `nCols`, and no buttons give no rows.
   */
  lemma BuildMenuPlain<T>(buttons: seq<T>, nCols: int)
    requires nCols > 0
    ensures BuildMenu(buttons, nCols, [], []).Ok?
    ensures var rows := BuildMenu(buttons, nCols, [], []).value;
      && Flatten(rows) == buttons
      && (rows == [] <==> buttons == [])
      && (forall i :: 0 <= i < |rows| - 1 ==> |rows[i]| == nCols)
      && (rows != [] ==> 0 < |rows[|rows| - 1]| <= nCols)
  {
    ChunksFlatten(buttons, nCols);
    ChunksShape(buttons, nCols);
  }

  /**
   * A non-empty header is the first row, a non-empty footer the last, an empty one adds
   * no row, and between them sit the button rows unchanged.
   */
  lemma BuildMenuFrame<T>(buttons: seq<T>, nCols: int, header: seq<T>, footer: seq<T>)
    requires nCols != 0
    ensures var rows := BuildMenu(buttons, nCols, header, footer).value;
      var body := if nCols > 0 then Chunks(buttons, nCols) else [];
      var h := if header != [] then 1 else 0;
      var f := if footer != [] then 1 else 0;
      && |rows| == h + |body| + f
      && (header != [] ==> rows[0] == header)
      && (footer != [] ==> rows[|rows| - 1] == footer)
      && rows[h .. |rows| - f] == body
  {
    var body := if nCols > 0 then Chunks(buttons, nCols) else [];
    var withHeader := if header != [] then [header] + body else body;
    var rows := if footer != [] then withHeader + [footer] else withHeader;
    assert BuildMenu(buttons, nCols, header, footer).value == rows;
    assert rows[..|withHeader|] == withHeader;
  }
}
