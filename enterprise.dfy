/**
 * The local helpers of the card-registry client `Enterprise`: random hex text and GUIDs, the
 * server's home URL, and the pivot of a registry table answer into rows keyed by number.
 * The random source and the process environment are parameters.
 */
module Enterprise {
  import opened UserModel

  // ---------------------------------------------------------------------------
  // Hex digits (`Math.floor(Math.random() * 16).toString(16)`)

  /** One draw of `Math.floor(Math.random() * 16)`. */
  type Nibble = x: int | 0 <= x < 16

  /** The characters `Number.prototype.toString(16)` prints for a digit: `0-9` and lower-case `a-f`. */
  predicate IsHexChar(c: char) {
    '0' <= c <= '9' || 'a' <= c <= 'f'
  }

  function HexValue(c: char): (r: Nibble)
    requires IsHexChar(c)
  {
    if c <= '9' then c as int - '0' as int else c as int - 'a' as int + 10
  }

  function HexDigit(n: Nibble): (c: char)
    ensures IsHexChar(c) && HexValue(c) == n
  {
    if n < 10 then ('0' as int + n) as char else ('a' as int + n - 10) as char
  }

  /** `randomHex(length)`: one hex digit per draw, in draw order. */
  function RandomHex(length: nat, draws: seq<Nibble>): (r: string)
    requires |draws| == length
    ensures |r| == length
    ensures forall i :: 0 <= i < length ==> IsHexChar(r[i]) && HexValue(r[i]) == draws[i]
  {
    seq(length, i requires 0 <= i < length => HexDigit(draws[i]))
  }

  /** Reading the digits back: the inverse of `RandomHex` on all-hex text. */
  function HexNibbles(s: string): (r: seq<Nibble>)
    requires forall i :: 0 <= i < |s| ==> IsHexChar(s[i])
    ensures |r| == |s|
  {
    seq(|s|, i requires 0 <= i < |s| => HexValue(s[i]))
  }

  /** The draws can be read back from the text `randomHex` produces. */
  lemma RandomHexRoundTrip(length: nat, draws: seq<Nibble>)
    requires |draws| == length
    ensures HexNibbles(RandomHex(length, draws)) == draws
  {
  }

  // ---------------------------------------------------------------------------
  // GUIDs

  /** `s.replace(/-/g, '')`. */
  function RemoveHyphens(s: string): (r: string)
    ensures |r| <= |s|
    ensures forall i :: 0 <= i < |r| ==> r[i] != '-'
    ensures (forall i :: 0 <= i < |s| ==> s[i] != '-') ==> r == s
  {
    if s == [] then []
    else if s[0] == '-' then RemoveHyphens(s[1..])
    else [s[0]] + RemoveHyphens(s[1..])
  }

  lemma {:induction false} RemoveHyphensAppend(a: string, b: string)
    ensures RemoveHyphens(a + b) == RemoveHyphens(a) + RemoveHyphens(b)
  {
    if a == [] {
      assert a + b == b;
    } else {
      assert (a + b)[0] == a[0] && (a + b)[1..] == a[1..] + b;
      RemoveHyphensAppend(a[1..], b);
    }
  }

  /** The `i`-th of the eight `randomHex(4)` calls in the template, fed draws `4i .. 4i+3`. */
  function Block(draws: seq<Nibble>, i: nat): (r: string)
    requires |draws| == 32 && i < 8
    ensures |r| == 4
  {
    RandomHex(4, draws[4 * i..4 * i + 4])
  }

  /** The hyphenated template: groups of 8, 4, 4, 4 and 12 hex digits. */
  function Hyphenated(draws: seq<Nibble>): (r: string)
    requires |draws| == 32
  {
    Block(draws, 0) + Block(draws, 1) + "-" + Block(draws, 2) + "-" + Block(draws, 3) + "-"
    + Block(draws, 4) + "-" + Block(draws, 5) + Block(draws, 6) + Block(draws, 7)
  }

  /** `generateGUID(notPrefix = false)` given the 32 hex-digit draws its eight `randomHex(4)` calls make. */
  function GenerateGUID(draws: seq<Nibble>, notPrefix: bool := false): (r: string)
    requires |draws| == 32
  {
    var guid := Hyphenated(draws);
    if notPrefix then RemoveHyphens(guid) else guid
  }

  /**
   * The default GUID is 36 characters: `-` at indices 8, 13, 18 and 23 and a hex digit
   * everywhere else.
   */
  lemma GuidShape(draws: seq<Nibble>)
    requires |draws| == 32
    ensures var g := GenerateGUID(draws);
      && |g| == 36
      && g[8] == '-' && g[13] == '-' && g[18] == '-' && g[23] == '-'
      && (forall i :: 0 <= i < 36 && i != 8 && i != 13 && i != 18 && i != 23 ==> IsHexChar(g[i]))
  {
    var g := GenerateGUID(draws);
    var b := seq(8, i requires 0 <= i < 8 => Block(draws, i));
    assert g == b[0] + b[1] + "-" + b[2] + "-" + b[3] + "-" + b[4] + "-" + b[5] + b[6] + b[7];
    forall i | 0 <= i < 36 && i != 8 && i != 13 && i != 18 && i != 23
      ensures IsHexChar(g[i])
    {
      if i < 4 { assert g[i] == b[0][i]; }
      else if i < 8 { assert g[i] == b[1][i - 4]; }
      else if i < 13 { assert g[i] == b[2][i - 9]; }
      else if i < 18 { assert g[i] == b[3][i - 14]; }
      else if i < 23 { assert g[i] == b[4][i - 19]; }
      else if i < 28 { assert g[i] == b[5][i - 24]; }
      else if i < 32 { assert g[i] == b[6][i - 28]; }
      else { assert g[i] == b[7][i - 32]; }
    }
  }

  /**
   * `generateGUID(true)` is the default GUID with its hyphens removed, and that is the 32 draws
   * as hex text in draw order, without any separator.
   */
  lemma GuidCompact(draws: seq<Nibble>)
    requires |draws| == 32
    ensures GenerateGUID(draws, true) == RemoveHyphens(GenerateGUID(draws))
    ensures GenerateGUID(draws, true) == RandomHex(32, draws)
    ensures HexNibbles(GenerateGUID(draws, true)) == draws
  {
    var b0, b1, b2, b3 := Block(draws, 0), Block(draws, 1), Block(draws, 2), Block(draws, 3);
    var b4, b5, b6, b7 := Block(draws, 4), Block(draws, 5), Block(draws, 6), Block(draws, 7);
    var g1 := b0 + b1;
    StripBlock([], b0);
    assert [] + b0 == b0;
    StripBlock(b0, b1);
    var g3 := g1 + "-" + b2;     StripBoth(g1, b2);
    var g5 := g3 + "-" + b3;     StripBoth(g3, b3);
    var g7 := g5 + "-" + b4;     StripBoth(g5, b4);
    var g9 := g7 + "-" + b5;     StripBoth(g7, b5);
    var g10 := g9 + b6;          StripBlock(g9, b6);
    var g11 := g10 + b7;         StripBlock(g10, b7);
    assert g11 == Hyphenated(draws);
    assert RemoveHyphens(g11) == b0 + b1 + b2 + b3 + b4 + b5 + b6 + b7;
    BlocksAreRandomHex(draws);
    RandomHexRoundTrip(32, draws);
  }

  /** Appending hex text appends it unchanged to the hyphen-free form. */
  lemma StripBlock(acc: string, piece: string)
    requires forall i :: 0 <= i < |piece| ==> IsHexChar(piece[i])
    ensures RemoveHyphens(acc + piece) == RemoveHyphens(acc) + piece
  {
    RemoveHyphensAppend(acc, piece);
  }

  /** Appending a hyphen leaves the hyphen-free form as it was. */
  lemma StripHyphen(acc: string)
    ensures RemoveHyphens(acc + "-") == RemoveHyphens(acc)
  {
    var h: string := "-";
    assert h[0] == '-' && h[1..] == [];
    assert RemoveHyphens(h) == [];
    RemoveHyphensAppend(acc, h);
    assert RemoveHyphens(acc) + [] == RemoveHyphens(acc);
  }

  /** Appending a hyphen and hex text appends only the hex text to the hyphen-free form. */
  lemma StripBoth(acc: string, piece: string)
    requires forall i :: 0 <= i < |piece| ==> IsHexChar(piece[i])
    ensures RemoveHyphens(acc + "-" + piece) == RemoveHyphens(acc) + piece
  {
    StripHyphen(acc);
    StripBlock(acc + "-", piece);
  }

  /** The eight blocks side by side are the hex text of all 32 draws. */
  lemma BlocksAreRandomHex(draws: seq<Nibble>)
    requires |draws| == 32
    ensures Block(draws, 0) + Block(draws, 1) + Block(draws, 2) + Block(draws, 3) + Block(draws, 4)
      + Block(draws, 5) + Block(draws, 6) + Block(draws, 7) == RandomHex(32, draws)
  {
    var hex := Block(draws, 0) + Block(draws, 1) + Block(draws, 2) + Block(draws, 3) + Block(draws, 4)
      + Block(draws, 5) + Block(draws, 6) + Block(draws, 7);
    forall i | 0 <= i < 32
      ensures hex[i] == RandomHex(32, draws)[i]
    {
      var k := i / 4;
      assert hex[i] == Block(draws, k)[i - 4 * k];
    }
  }

  // ---------------------------------------------------------------------------
  // Home URL

  /** `process.env[name] === value`; an unset variable is `undefined`. */
  predicate EnvIs(env: map<string, string>, name: string, value: string) {
    name in env && env[name] == value
  }

  /** `process.env.HOST || 'localhost'`: an unset or empty `HOST` falls back to `localhost`. */
  function Host(env: map<string, string>): (h: string)
    ensures h != ""
    ensures (("HOST" in env && env["HOST"] != "") ==> h == env["HOST"])
    ensures (("HOST" !in env || env["HOST"] == "") ==> h == "localhost")
  {
    if "HOST" in env && env["HOST"] != "" then env["HOST"] else "localhost"
  }

  /** `getHomeURL(useSlash = true)` under the environment `env`. */
  function HomeURL(env: map<string, string>, useSlash: bool := true): (r: string) {
    var protocol := if EnvIs(env, "HTTPS", "true") then "https" else "http";
    protocol + "://" + Host(env) + (if useSlash then "/" else "")
  }

  /**
   * The URL is `https://` exactly when `HTTPS` is `"true"` and `http://` otherwise, the host
   * follows the scheme, and a `/` ends it when `useSlash` is set; without `useSlash` it ends
   * with the host itself, so it ends in `/` only when the host does.
   */
  lemma HomeURLSpec(useSlash: bool, env: map<string, string>)
    ensures var r := HomeURL(env, useSlash);
      var n := if EnvIs(env, "HTTPS", "true") then 8 else 7;
      var s := if useSlash then 1 else 0;
      && |r| == n + |Host(env)| + s
      && (r[..8] == "https://" <==> EnvIs(env, "HTTPS", "true"))
      && (!EnvIs(env, "HTTPS", "true") <==> r[..7] == "http://")
      && r[n..|r| - s] == Host(env)
      && (useSlash ==> r[|r| - 1] == '/')
      && (!useSlash ==> (r[|r| - 1] == '/' <==> Host(env)[|Host(env)| - 1] == '/'))
  {
    var r := HomeURL(env, useSlash);
    var https := EnvIs(env, "HTTPS", "true");
    if !https {
      assert r[4] == ':' && "https://"[4] == 's';
    } else {
      assert r[4] == 's' && "http://"[4] == ':';
    }
  }

  // ---------------------------------------------------------------------------
  // Table pivot (`parse`)

  /** A column description, as `data.keys` lists it and as `columns` stores it. */
  datatype Column = Column(key: string, typ: string, name: string, description: string)

  /** A flat data row: its row `number`, the column `key` it fills and its other properties. */
  datatype DataRow = DataRow(number: string, key: string, props: map<string, string>)

  /** The registry answer handed to `parse`. */
  datatype Answer = Answer(keys: seq<Column>, data: seq<DataRow>, hierarchical: bool, total: int)

  /** Row number to column key to cell; a cell read from an absent property is `undefined` (None). */
  type Table = map<string, map<string, Option<string>>>

  datatype Parsed = Parsed(table: Table, columns: map<string, Column>, hierarchical: bool, total: int)

  /** `item[name]` on a data row: its own `number` and `key` or one of its other properties. */
  function Prop(row: DataRow, name: string): (v: Option<string>)
    ensures name == "number" ==> v == Some(row.number)
    ensures name == "key" ==> v == Some(row.key)
    ensures name != "number" && name != "key" ==> (v.Some? <==> name in row.props)
    ensures name != "number" && name != "key" && name in row.props ==> v == Some(row.props[name])
  {
    if name == "number" then Some(row.number)
    else if name == "key" then Some(row.key)
    else if name in row.props then Some(row.props[name])
    else None
  }

  /** The `columns` record after the first loop has seen `keys`. */
  function ColumnsOf(keys: seq<Column>): (r: map<string, Column>) {
    if keys == [] then map[]
    else ColumnsOf(keys[..|keys| - 1])[keys[|keys| - 1].key := keys[|keys| - 1]]
  }

  /** One pass of the second loop: fill one cell, keeping the row's other cells. */
  function Filled(t: Table, columns: map<string, Column>, row: DataRow): (r: Table)
    requires row.key in columns
  {
    var cells := if row.number in t then t[row.number] else map[];
    t[row.number := cells[row.key := Prop(row, columns[row.key].typ)]]
  }

  /**
   * The `table` record after the second loop has seen `rows`, or None once a row names a key
   * that `columns` lacks (`columns[row.key].type` throws a `TypeError` on `undefined`).
   */
  function TableOf(columns: map<string, Column>, rows: seq<DataRow>): (r: Option<Table>) {
    if rows == [] then Some(map[])
    else
      var r := rows[|rows| - 1];
      match TableOf(columns, rows[..|rows| - 1])
      case None => None
      case Some(t) => if r.key in columns then Some(Filled(t, columns, r)) else None
  }

  function ParseOf(data: Answer): (r: Option<Parsed>) {
    var columns := ColumnsOf(data.keys);
    match TableOf(columns, data.data)
    case None => None
    case Some(t) => Some(Parsed(t, columns, data.hierarchical, data.total))
  }

  /**
   * `parse(data)`: the two loops of the source over `data.keys` and `data.data`, returning None
   * where the source throws. The result carries `hierarchical` and `total` unchanged.
   */
  method Parse(data: Answer) returns (r: Option<Parsed>)
    ensures r == ParseOf(data)
    ensures r.Some? ==> r.value.hierarchical == data.hierarchical && r.value.total == data.total
    ensures r.None? <==> exists i :: 0 <= i < |data.data| && data.data[i].key !in ColumnsOf(data.keys)
  {
    var columns: map<string, Column> := map[];
    for i := 0 to |data.keys|
      invariant columns == ColumnsOf(data.keys[..i])
    {
      var row := data.keys[i];
      assert data.keys[..i + 1][..i] == data.keys[..i];
      columns := columns[row.key := Column(row.key, row.typ, row.name, row.description)];
    }
    assert data.keys[..|data.keys|] == data.keys;
    var table: Table := map[];
    for i := 0 to |data.data|
      invariant TableOf(columns, data.data[..i]) == Some(table)
    {
      var row := data.data[i];
      assert data.data[..i + 1][..i] == data.data[..i];
      if row.key !in columns {
        TableFailsFrom(columns, data.data, i + 1);
        TableFails(columns, data.data);
        return None;
      }
      var key := columns[row.key].typ;
      var cells := if row.number in table then table[row.number] else map[];
      table := table[row.number := cells[row.key := Prop(row, key)]];
    }
    assert data.data[..|data.data|] == data.data;
    TableFails(columns, data.data);
    r := Some(Parsed(table, columns, data.hierarchical, data.total));
  }

  /** Once a prefix fails, every longer prefix fails. */
  lemma {:induction false} TableFailsFrom(columns: map<string, Column>, rows: seq<DataRow>, i: nat)
    requires i <= |rows| && TableOf(columns, rows[..i]).None?
    ensures TableOf(columns, rows).None?
    decreases |rows| - i
  {
    if i < |rows| {
      assert rows[..i + 1][..i] == rows[..i];
      TableFailsFrom(columns, rows, i + 1);
    } else {
      assert rows[..i] == rows;
    }
  }

  /** `parse` fails exactly when some data row names a key no key row declared. */
  lemma {:induction false} TableFails(columns: map<string, Column>, rows: seq<DataRow>)
    ensures TableOf(columns, rows).None? <==> exists i :: 0 <= i < |rows| && rows[i].key !in columns
  {
    if rows != [] {
      var init := rows[..|rows| - 1];
      TableFails(columns, init);
      if exists i :: 0 <= i < |init| && init[i].key !in columns {
        var i :| 0 <= i < |init| && init[i].key !in columns;
        assert rows[i] == init[i];
      }
      if exists i :: 0 <= i < |rows| && rows[i].key !in columns {
        var i :| 0 <= i < |rows| && rows[i].key !in columns;
        if i < |init| {
          assert init[i].key !in columns;
        }
      }
    }
  }

  /** Key row `i` of `keys` declares column `k`. */
  ghost predicate Declares(keys: seq<Column>, i: int, k: string)
    requires 0 <= i < |keys|
  {
    keys[i].key == k
  }

  /** One `columns` entry per distinct key of `data.keys`: a key is present exactly when some key row names it. */
  lemma {:induction false} ColumnsOfDomain(keys: seq<Column>, k: string)
    ensures k in ColumnsOf(keys) <==> exists i :: 0 <= i < |keys| && Declares(keys, i, k)
  {
    if keys != [] {
      var init := keys[..|keys| - 1];
      ColumnsOfDomain(init, k);
      if k in ColumnsOf(keys) {
        if k in ColumnsOf(init) {
          var i :| 0 <= i < |init| && Declares(init, i, k);
          assert Declares(keys, i, k);
        } else {
          assert Declares(keys, |keys| - 1, k);
        }
      }
      if exists i :: 0 <= i < |keys| && Declares(keys, i, k) {
        var i :| 0 <= i < |keys| && Declares(keys, i, k);
        if i < |init| {
          assert Declares(init, i, k);
        }
      }
    }
  }

  /** The entry of column `k` is the last key row that names `k`: a repeated key keeps the last row. */
  lemma {:induction false} ColumnsOfEntry(keys: seq<Column>, k: string)
    requires k in ColumnsOf(keys)
    ensures exists i ::
      && 0 <= i < |keys| && Declares(keys, i, k) && ColumnsOf(keys)[k] == keys[i]
      && forall j :: i < j < |keys| ==> !Declares(keys, j, k)
  {
    var init := keys[..|keys| - 1];
    var last := keys[|keys| - 1];
    if last.key == k {
      assert Declares(keys, |keys| - 1, k);
    } else {
      ColumnsOfEntry(init, k);
      var i :| 0 <= i < |init| && Declares(init, i, k) && ColumnsOf(init)[k] == init[i]
        && forall j :: i < j < |init| ==> !Declares(init, j, k);
      assert Declares(keys, i, k) && keys[i] == init[i];
      forall j | i < j < |keys|
        ensures !Declares(keys, j, k)
      {
        if j < |init| {
          assert !Declares(init, j, k);
        }
      }
    }
  }

  /** Filling one cell adds exactly that cell and keeps every other cell. */
  lemma FilledSpec(t: Table, columns: map<string, Column>, row: DataRow, n: string, f: string)
    requires row.key in columns
    ensures var t2 := Filled(t, columns, row);
      && (n in t2 && f in t2[n] <==> (n in t && f in t[n]) || (row.number == n && row.key == f))
      && (row.number == n && row.key == f ==> t2[n][f] == Prop(row, columns[f].typ))
      && (!(row.number == n && row.key == f) && n in t && f in t[n] ==> t2[n][f] == t[n][f])
  {
  }

  /** The cells of `TableOf(columns, rows)` that row `n`, key `f` can name. */
  ghost predicate Carries(rows: seq<DataRow>, i: int, n: string, f: string)
    requires 0 <= i < |rows|
  {
    rows[i].number == n && rows[i].key == f
  }

  /**
   * When `parse` succeeds, row `n` has a cell for key `f` exactly when some data row carries
   * number `n` and key `f`.
   */
  lemma {:induction false} TableOfDomain(columns: map<string, Column>, rows: seq<DataRow>, n: string, f: string)
    requires TableOf(columns, rows).Some?
    ensures var t := TableOf(columns, rows).value;
      n in t && f in t[n] <==> exists i :: 0 <= i < |rows| && Carries(rows, i, n, f)
  {
    if rows != [] {
      var init := rows[..|rows| - 1];
      var last := rows[|rows| - 1];
      assert TableOf(columns, init).Some?;
      TableOfDomain(columns, init, n, f);
      var t0 := TableOf(columns, init).value;
      assert TableOf(columns, rows).value == Filled(t0, columns, last);
      FilledSpec(t0, columns, last, n, f);
      var t := TableOf(columns, rows).value;
      if n in t && f in t[n] {
        if n in t0 && f in t0[n] {
          var i :| 0 <= i < |init| && Carries(init, i, n, f);
          assert Carries(rows, i, n, f);
        } else {
          assert Carries(rows, |rows| - 1, n, f);
        }
      }
      if exists i :: 0 <= i < |rows| && Carries(rows, i, n, f) {
        var i :| 0 <= i < |rows| && Carries(rows, i, n, f);
        if i < |init| {
          assert Carries(init, i, n, f);
        }
      }
    }
  }

  /**
   * A cell of a successful `parse` holds the property named by its column's type, read from
   * the last data row with that number and key: a later row overwrites an earlier one.
   */
  lemma {:induction false} TableOfCell(columns: map<string, Column>, rows: seq<DataRow>, n: string, f: string)
    requires TableOf(columns, rows).Some?
    requires var t := TableOf(columns, rows).value; n in t && f in t[n]
    ensures var t := TableOf(columns, rows).value;
      exists i :: 0 <= i < |rows| && Carries(rows, i, n, f)
        && f in columns && t[n][f] == Prop(rows[i], columns[f].typ)
        && forall j :: i < j < |rows| ==> !Carries(rows, j, n, f)
  {
    var init := rows[..|rows| - 1];
    var last := rows[|rows| - 1];
    var t0 := TableOf(columns, init).value;
    var t := TableOf(columns, rows).value;
    FilledSpec(t0, columns, last, n, f);
    if last.number == n && last.key == f {
      assert Carries(rows, |rows| - 1, n, f);
    } else {
      TableOfCell(columns, init, n, f);
      var i :| 0 <= i < |init| && Carries(init, i, n, f)
        && f in columns && t0[n][f] == Prop(init[i], columns[f].typ)
        && forall j :: i < j < |init| ==> !Carries(init, j, n, f);
      assert Carries(rows, i, n, f) && rows[i] == init[i];
      forall j | i < j < |rows|
        ensures !Carries(rows, j, n, f)
      {
        if j < |init| {
          assert !Carries(init, j, n, f);
        }
      }
    }
  }
}
