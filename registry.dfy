/**
 * The provider registry of config.py: the parsed configuration (provider
 * name -> base URL and key source), the normalisation of a key source into
 * an ordered key list, and the per-provider round-robin cursor table
 * `key_indices` that every dispense advances.
 */
module Registry {
  import opened Text

  datatype Option<T> = None | Some(value: T)

  /** What the `keys` entry of a provider holds once the configuration is parsed. */
  datatype KeySource =
    | KeyList(items: seq<string>)   // a list: its elements are used as given
    | KeyString(text: string)       // a comma-separated string
    | Other                         // any other value (a number, a mapping, ...)

  /** One provider's configuration entry; a missing field is `None`. */
  datatype ProviderEntry = ProviderEntry(baseUrl: Option<string>, keys: Option<KeySource>)

  /** The ValueError conditions of config.py, one variant per raise site. */
  datatype ConfigError =
    | ProviderNotConfigured   // provider absent, or no `keys` entry (line 41)
    | KeysNotListOrString     // `keys` is neither a list nor a string (line 51)
    | NoKeysAvailable         // normalisation left no key (line 56)
    | BaseUrlNotFound         // provider absent, or no `base_url` entry (line 68)

  datatype Result<T> = Ok(value: T) | Err(error: ConfigError)

  type Entries = map<string, ProviderEntry>

  /** The keys of a comma-separated string: each piece between commas is
      stripped, and pieces that strip to nothing are dropped. */
  function SplitKeys(text: string): (r: seq<string>)
    ensures |r| <= |Split(text, ',')|
  {
    StrippedNonEmpty(Split(text, ','))
  }

  /** A usable key: non-empty, with no whitespace at either end. */
  predicate Trimmed(k: string) {
    k != [] && !IsSpace(k[0]) && !IsSpace(k[|k| - 1])
  }

  /** The stripped pieces, in order, without the ones that strip to nothing. */
  function StrippedNonEmpty(pieces: seq<string>): (r: seq<string>)
    ensures |r| <= |pieces|
  {
    if pieces == [] then []
    else
      var rest := StrippedNonEmpty(pieces[1..]);
      if Strip(pieces[0]) != [] then [Strip(pieces[0])] + rest else rest
  }

  /** Every key normalisation keeps is non-empty and has no whitespace at either end. */
  lemma {:induction false} StrippedNonEmptyTrimmed(pieces: seq<string>)
    ensures forall k :: k in StrippedNonEmpty(pieces) ==> Trimmed(k)
  {
    if pieces != [] {
      StrippedNonEmptyTrimmed(pieces[1..]);
    }
  }

  /** Normalisation leaves nothing exactly when every piece strips to nothing. */
  lemma {:induction false} StrippedNonEmptyEmptyIff(pieces: seq<string>)
    ensures StrippedNonEmpty(pieces) == [] <==> forall i :: 0 <= i < |pieces| ==> Strip(pieces[i]) == []
  {
    if pieces != [] {
      var tail := pieces[1..];
      StrippedNonEmptyEmptyIff(tail);
      if Strip(pieces[0]) == [] {
        assert StrippedNonEmpty(pieces) == StrippedNonEmpty(tail);
        assert forall i :: 1 <= i < |pieces| ==> pieces[i] == tail[i - 1];
      } else {
        assert StrippedNonEmpty(pieces)[0] == Strip(pieces[0]);
      }
    }
  }

  /** Normalisation works piece by piece: the keys of two runs of pieces are
      the keys of the first run followed by the keys of the second. */
  lemma {:induction false} StrippedNonEmptyConcat(a: seq<string>, b: seq<string>)
    ensures StrippedNonEmpty(a + b) == StrippedNonEmpty(a) + StrippedNonEmpty(b)
  {
    if a == [] {
      assert a + b == b;
    } else {
      assert (a + b)[0] == a[0];
      assert (a + b)[1..] == a[1..] + b;
      StrippedNonEmptyConcat(a[1..], b);
    }
  }

  /** A key is kept exactly when it is non-empty and some piece strips to it. */
  lemma {:induction false} StrippedNonEmptyMembers(pieces: seq<string>)
    ensures forall k :: k in StrippedNonEmpty(pieces) <==> k != [] && exists i :: 0 <= i < |pieces| && Strip(pieces[i]) == k
  {
    if pieces != [] {
      var tail := pieces[1..];
      StrippedNonEmptyMembers(tail);
      assert forall i :: 1 <= i < |pieces| ==> pieces[i] == tail[i - 1];
    }
  }

  /** `"a,b,"` splits into `a`, `b` and an empty last piece. */
  lemma SplitTrailingComma()
    ensures Split("a,b,", ',') == ["a", "b", ""]
  {
    var pieces := ["a", "b", ""];
    assert Join(pieces, ',') == "a,b,";
    SplitJoin(pieces, ',');
  }

  /** `"a, ,b"` splits into `a`, a blank piece and `b`. */
  lemma SplitBlankPiece()
    ensures Split("a, ,b", ',') == ["a", " ", "b"]
  {
    var pieces := ["a", " ", "b"];
    assert Join(pieces, ',') == "a, ,b";
    SplitJoin(pieces, ',');
  }

  /** Blank pieces anywhere among the pieces contribute no key. */
  lemma BlankPiecesContributeNothing()
    ensures StrippedNonEmpty(["a", "b", ""]) == ["a", "b"]
    ensures StrippedNonEmpty(["a", " ", "b"]) == ["a", "b"]
  {
    StripSingle('a');
    StripSingle('b');
    StrippedKeepsAll(["a", "b"]);
    StripEmptyIffBlank("");
    assert Blank(" ");
    StripEmptyIffBlank(" ");
    StrippedNonEmptyConcat(["a", "b"], [""]);
    StrippedNonEmptyConcat(["a"], [" ", "b"]);
    StrippedNonEmptyConcat([" "], ["b"]);
    assert ["a", "b"] + [""] == ["a", "b", ""];
    assert ["a"] + [" ", "b"] == ["a", " ", "b"];
    assert [" "] + ["b"] == [" ", "b"];
  }

  /** A trailing comma and a blank piece between two keys are both dropped:
      `"a,b,"` and `"a, ,b"` both give the keys `a` and `b`. */
  lemma TrailingAndBlankPiecesDropped()
    ensures SplitKeys("a,b,") == ["a", "b"]
    ensures SplitKeys("a, ,b") == ["a", "b"]
  {
    SplitTrailingComma();
    SplitBlankPiece();
    BlankPiecesContributeNothing();
  }

  /** Normalisation of a key source into the list that is rotated over. */
  function NormaliseKeys(src: KeySource): (r: Result<seq<string>>)
    ensures r.Ok? ==> r.value != []
    ensures r.Err? ==> r.error == (if src.Other? then KeysNotListOrString else NoKeysAvailable)
    ensures r.Err? <==> src.Other? || (src.KeyList? && src.items == []) || (src.KeyString? && SplitKeys(src.text) == [])
    ensures src.KeyList? && src.items != [] ==> r == Ok(src.items)
    ensures src.KeyString? && r.Ok? ==> r.value == SplitKeys(src.text)
  {
    match src
    case KeyList(items) => if items == [] then Err(NoKeysAvailable) else Ok(items)
    case KeyString(text) =>
      var keys := SplitKeys(text);
      if keys == [] then Err(NoKeysAvailable) else Ok(keys)
    case Other => Err(KeysNotListOrString)
  }

  /** The key list `get_next_key` rotates over for `provider`, or the error it raises. */
  function KeysFor(entries: Entries, provider: string): (r: Result<seq<string>>)
    ensures r.Ok? ==> r.value != []
    ensures r.Err? && r.error == ProviderNotConfigured <==> provider !in entries || entries[provider].keys.None?
    ensures provider in entries && entries[provider].keys.Some? ==> r == NormaliseKeys(entries[provider].keys.value)
  {
    if provider !in entries || entries[provider].keys.None? then Err(ProviderNotConfigured)
    else NormaliseKeys(entries[provider].keys.value)
  }

  /** The test `_initialize_key_indices` and `get_providers` share: the key
      source is a non-empty list, or a string that is not blank. */
  predicate IsActive(e: ProviderEntry)
    ensures IsActive(e) ==> e.keys.Some? && !e.keys.value.Other?
  {
    e.keys.Some? &&
    match e.keys.value
    case KeyList(items) => items != []
    case KeyString(text) => Strip(text) != []
    case Other => false
  }

  ghost function ActiveNames(entries: Entries): (r: set<string>) {
    set p | p in entries && IsActive(entries[p])
  }

  /** `order` is the iteration order of the configuration dictionary: every
      name once, and exactly the names of `entries`. */
  ghost predicate WellFormedOrder(order: seq<string>, entries: Entries) {
    (forall i, j :: 0 <= i < j < |order| ==> order[i] != order[j]) &&
    (forall p :: p in entries <==> p in order)
  }

  /** The index of `x` in `order`. */
  function Position(x: string, order: seq<string>): (k: nat)
    requires x in order
    ensures k < |order| && order[k] == x
    ensures forall j :: 0 <= j < k ==> order[j] != x
  {
    if order[0] == x then 0 else 1 + Position(x, order[1..])
  }

  /** `xs` lists names of `order` in the order `order` has them. */
  ghost predicate InConfigOrder(xs: seq<string>, order: seq<string>) {
    (forall i :: 0 <= i < |xs| ==> xs[i] in order) &&
    (forall i, j :: 0 <= i < j < |xs| ==> xs[i] in order && xs[j] in order && Position(xs[i], order) < Position(xs[j], order))
  }

  /** The names of `order` whose entry passes the activity test, in order. */
  function ListedIn(order: seq<string>, entries: Entries): (r: seq<string>)
    ensures |r| <= |order|
  {
    if order == [] then []
    else
      var last := order[|order| - 1];
      ListedIn(order[..|order| - 1], entries) + (if last in entries && IsActive(entries[last]) then [last] else [])
  }

  /** A name is listed exactly when it is in `order` and its entry is active. */
  lemma {:induction false} ListedInMembers(order: seq<string>, entries: Entries)
    ensures forall p :: p in ListedIn(order, entries) <==> p in order && p in entries && IsActive(entries[p])
  {
    if order != [] {
      var init := order[..|order| - 1];
      ListedInMembers(init, entries);
      assert order == init + [order[|order| - 1]];
    }
  }

  /** The first occurrence of a name in a prefix is its first occurrence in the whole list. */
  lemma PositionInPrefix(x: string, order: seq<string>, n: nat)
    requires n <= |order| && x in order[..n]
    ensures x in order && Position(x, order[..n]) == Position(x, order)
  {
    assert forall j :: 0 <= j < n ==> order[..n][j] == order[j];
  }

  /** Names ordered within a prefix of a list of distinct names are ordered
      the same way within the whole list. */
  lemma InConfigOrderPrefix(xs: seq<string>, order: seq<string>, n: nat)
    requires n <= |order|
    requires InConfigOrder(xs, order[..n])
    ensures InConfigOrder(xs, order)
    ensures forall i :: 0 <= i < |xs| ==> Position(xs[i], order) < n
  {
    forall i | 0 <= i < |xs| ensures xs[i] in order && Position(xs[i], order) == Position(xs[i], order[..n]) {
      PositionInPrefix(xs[i], order, n);
    }
  }

  /** Appending a name that comes after every listed one keeps the order. */
  lemma InConfigOrderAppend(xs: seq<string>, x: string, order: seq<string>)
    requires InConfigOrder(xs, order) && x in order
    requires forall i :: 0 <= i < |xs| ==> Position(xs[i], order) < Position(x, order)
    ensures InConfigOrder(xs + [x], order)
  {
    var ys := xs + [x];
    assert forall i :: 0 <= i < |xs| ==> ys[i] == xs[i];
  }

  /** The listing keeps the configuration order. */
  lemma {:induction false} ListedInOrder(order: seq<string>, entries: Entries)
    requires forall i, j :: 0 <= i < j < |order| ==> order[i] != order[j]
    ensures InConfigOrder(ListedIn(order, entries), order)
  {
    if order != [] {
      var n := |order| - 1;
      var init := order[..n];
      var last := order[n];
      ListedInOrder(init, entries);
      var xs := ListedIn(init, entries);
      InConfigOrderPrefix(xs, order, n);
      if last in entries && IsActive(entries[last]) {
        assert Position(last, order) == n;
        InConfigOrderAppend(xs, last, order);
      } else {
        assert ListedIn(order, entries) == xs;
      }
    }
  }

  /** A cursor is in range of its provider's key list; a provider whose keys
      cannot be dispensed keeps the cursor 0 it was given. */
  predicate CursorInRange(keys: Result<seq<string>>, cursor: nat) {
    if keys.Ok? then cursor < |keys.value| else cursor == 0
  }

  /** The registry invariant over explicit state: exactly the active providers
      have a cursor, and every cursor is in range. */
  ghost predicate RegistryInvariant(order: seq<string>, entries: Entries, cursors: map<string, nat>) {
    WellFormedOrder(order, entries) &&
    cursors.Keys == ActiveNames(entries) &&
    forall p :: p in cursors ==> CursorInRange(KeysFor(entries, p), cursors[p])
  }

  /** The cursor of a provider with usable keys exists and indexes its key
      list, and advancing it by one modulo the number of keys keeps the
      invariant. */
  lemma AdvanceKeepsInvariant(order: seq<string>, entries: Entries, cursors: map<string, nat>,
                              provider: string, keys: seq<string>)
    requires RegistryInvariant(order, entries, cursors)
    requires KeysFor(entries, provider) == Ok(keys)
    ensures provider in cursors && cursors[provider] < |keys|
    ensures RegistryInvariant(order, entries, cursors[provider := NextCursor(cursors[provider], |keys|)])
  {
    UsableKeysAreActive(entries, provider);
    assert CursorInRange(KeysFor(entries, provider), cursors[provider]);
    var cursors' := cursors[provider := NextCursor(cursors[provider], |keys|)];
    assert cursors'.Keys == cursors.Keys;
  }

  /** The cursor after one dispense, for a cursor in range: the next
      position, wrapping to 0 after the last key. */
  function NextCursor(c: nat, len: nat): (r: nat)
    requires c < len
    ensures r < len
  {
    if c + 1 == len then 0 else c + 1
  }

  /** Stepping a cursor is `(c + 1) % len`, the update of config.py. */
  lemma NextCursorIsMod(c: nat, len: nat)
    requires c < len
    ensures NextCursor(c, len) == (c + 1) % len
  {
    if c + 1 == len {
      ModUnique(c + 1, len, 1, 0);
    } else {
      ModUnique(c + 1, len, 0, c + 1);
    }
  }

  /** The cursor of a provider after `n` successful dispenses from the
      initial cursor 0. */
  function CursorAfter(n: nat, len: nat): (c: nat)
    requires len > 0
    ensures c < len
  {
    if n == 0 then 0 else NextCursor(CursorAfter(n - 1, len), len)
  }

  /** Fairness: after `n` dispenses the cursor is `n mod len`, so the keys are
      handed out as `keys[0], keys[1], ...` cyclically. */
  lemma {:induction false} CursorAfterIsModular(n: nat, len: nat)
    requires len > 0
    ensures CursorAfter(n, len) == n % len
  {
    if n > 0 {
      var m: nat := n - 1;
      CursorAfterIsModular(m, len);
      NextCursorIsMod(CursorAfter(m, len), len);
      ModSucc(m, len);
    }
  }

  /** Over any `len` consecutive dispenses every key is handed out: key
      position `j` is reached within `len` steps of the `start`-th dispense. */
  lemma FullCycleReaches(start: nat, len: nat, j: nat)
    requires len > 0 && j < len
    ensures exists n: nat :: start <= n < start + len && CursorAfter(n, len) == j
  {
    var s := start % len;
    var i: nat := if j >= s then j - s else j + len - s;
    CursorAfterShift(start, len, i);
    assert CursorAfter(start + i, len) == j;
  }

  /** ... and no key twice: `len` consecutive dispenses visit distinct cursors. */
  lemma FullCycleDistinct(start: nat, len: nat, i: nat, k: nat)
    requires i < k < len
    ensures CursorAfter(start + i, len) != CursorAfter(start + k, len)
  {
    CursorAfterShift(start, len, i);
    CursorAfterShift(start, len, k);
  }

  /** The cursor `i < len` dispenses after the `start`-th one. */
  lemma CursorAfterShift(start: nat, len: nat, i: nat)
    requires len > 0 && i < len
    ensures CursorAfter(start + i, len) == if start % len + i < len then start % len + i else start % len + i - len
  {
    CursorAfterIsModular(start + i, len);
    ModShift(start, len, i);
  }

  /** `(start + i) mod len` for `i < len` is `start mod len` shifted by `i`, wrapped once. */
  lemma ModShift(start: nat, len: nat, i: nat)
    requires len > 0 && i < len
    ensures (start + i) % len == if start % len + i < len then start % len + i else start % len + i - len
  {
    var q := start / len;
    var r := start % len;
    assert start == len * q + r;
    if r + i < len {
      ModUnique(start + i, len, q, r + i);
    } else {
      assert start + i == len * (q + 1) + (r + i - len);
      ModUnique(start + i, len, q + 1, r + i - len);
    }
  }

  /** A positive multiple of a positive number is at least that number. */
  lemma {:induction false} MulAtLeast(n: int, k: nat)
    requires n > 0 && k >= 1
    ensures n * k >= n
  {
    if k > 1 {
      MulAtLeast(n, k - 1);
      assert n * k == n * (k - 1) + n;
    }
  }

  /** Quotient and remainder are unique. */
  lemma ModUnique(a: int, n: int, q: int, r: int)
    requires n > 0 && 0 <= r < n && a == n * q + r
    ensures a % n == r
  {
    var q' := a / n;
    assert a == n * q' + a % n;
    if q > q' {
      MulAtLeast(n, q - q');
    } else if q < q' {
      MulAtLeast(n, q' - q);
    }
  }

  /** Advancing a cursor that equals `count mod n` gives `(count + 1) mod n`. */
  lemma ModSucc(count: nat, n: nat)
    requires n > 0
    ensures (count % n + 1) % n == (count + 1) % n
  {
    var q := count / n;
    var r := count % n;
    assert count == n * q + r;
    if r + 1 == n {
      assert count + 1 == n * (q + 1);
      ModUnique(count + 1, n, q + 1, 0);
      ModUnique(r + 1, n, 1, 0);
    } else {
      ModUnique(count + 1, n, q, r + 1);
      ModUnique(r + 1, n, 0, r + 1);
    }
  }

  /** A string whose normalisation is non-empty is not blank. */
  lemma {:induction false} SplitKeysNonBlank(text: string)
    requires SplitKeys(text) != []
    ensures Strip(text) != []
  {
    var pieces := Split(text, ',');
    StrippedNonEmptyEmptyIff(pieces);
    var i :| 0 <= i < |pieces| && Strip(pieces[i]) != [];
    StripEmptyIffBlank(pieces[i]);
    var j :| 0 <= j < |pieces[i]| && !IsSpace(pieces[i][j]);
    SplitChars(text, ',', i, pieces[i][j]);
    StripEmptyIffBlank(text);
  }

  /** A key source that yields keys passes the activity test, so every provider
      `get_next_key` can serve had its cursor created by `_initialize_key_indices`. */
  lemma UsableKeysAreActive(entries: Entries, provider: string)
    requires KeysFor(entries, provider).Ok?
    ensures provider in ActiveNames(entries)
  {
    if entries[provider].keys.value.KeyString? {
      SplitKeysNonBlank(entries[provider].keys.value.text);
    }
  }

  /** The normalisation of a comma-separated string is empty exactly when the
      string holds nothing but commas and whitespace. */
  lemma {:induction false} SplitKeysEmptyIff(text: string)
    ensures SplitKeys(text) == [] <==> forall i :: 0 <= i < |text| ==> text[i] == ',' || IsSpace(text[i])
  {
    var pieces := Split(text, ',');
    StrippedNonEmptyEmptyIff(pieces);
    if SplitKeys(text) == [] {
      forall i | 0 <= i < |text| ensures text[i] == ',' || IsSpace(text[i]) {
        JoinSplit(text, ',');
        assert text[i] in Join(pieces, ',');
        JoinChars(pieces, ',', text[i]);
        if text[i] != ',' {
          var k :| 0 <= k < |pieces| && text[i] in pieces[k];
          StripEmptyIffBlank(pieces[k]);
        }
      }
    } else {
      var k :| 0 <= k < |pieces| && Strip(pieces[k]) != [];
      StripEmptyIffBlank(pieces[k]);
      var j :| 0 <= j < |pieces[k]| && !IsSpace(pieces[k][j]);
      SplitChars(text, ',', k, pieces[k][j]);
      assert pieces[k][j] != ',';
    }
  }

  /** A provider configured with `keys: ","` is active, yet has no key to dispense. */
  lemma ActiveWithoutUsableKeys()
    ensures IsActive(ProviderEntry(None, Some(KeyString(","))))
    ensures NormaliseKeys(KeyString(",")) == Err(NoKeysAvailable)
  {
    SplitKeysEmptyIff(",");
    assert !IsSpace(","[0]);
    StripEmptyIffBlank(",");
  }

  /** The pieces of `"x, y ,z"` between its commas. */
  lemma SplitExample()
    ensures Split("x, y ,z", ',') == ["x", " y ", "z"]
  {
    var pieces := ["x", " y ", "z"];
    assert Join(pieces, ',') == "x, y ,z";
    SplitJoin(pieces, ',');
  }

  /** A single non-space character strips to itself. */
  lemma StripSingle(c: char)
    requires !IsSpace(c)
    ensures Strip([c]) == [c]
  {
    StripPadding([], [c], []);
    assert [] + [c] + [] == [c];
  }

  /** `" y "` strips to `"y"`. */
  lemma StripPadded()
    ensures Strip(" y ") == "y"
  {
    var sp := " ";
    assert Blank(sp);
    StripPadding(sp, "y", sp);
    assert sp + "y" + sp == " y ";
  }

  /** Every piece, stripped, in order. */
  function StripEach(pieces: seq<string>): (r: seq<string>)
    ensures |r| == |pieces|
  {
    if pieces == [] then [] else [Strip(pieces[0])] + StripEach(pieces[1..])
  }

  /** When no piece is blank, normalisation keeps every piece, stripped
      and in order. */
  lemma {:induction false} StrippedKeepsAll(pieces: seq<string>)
    requires forall p :: p in pieces ==> Strip(p) != []
    ensures StrippedNonEmpty(pieces) == StripEach(pieces)
  {
    if pieces != [] {
      assert pieces[0] in pieces;
      StrippedKeepsAll(pieces[1..]);
    }
  }

  /** The three pieces of `"x, y ,z"` strip to `x`, `y` and `z`. */
  lemma StripExample()
    ensures StrippedNonEmpty(["x", " y ", "z"]) == ["x", "y", "z"]
  {
    var pieces := ["x", " y ", "z"];
    StripSingle('x');
    StripPadded();
    StripSingle('z');
    assert Strip(pieces[0]) == "x" && Strip(pieces[1]) == "y" && Strip(pieces[2]) == "z";
    StrippedKeepsAll(pieces);
    assert StripEach(pieces) == ["x", "y", "z"];
  }

  /** `keys: "x, y ,z"` normalises to the same list as `keys: [x, y, z]`,
      and both sources pass the activity test, so the two configurations
      rotate identically. */
  lemma StringAndListNormaliseAlike()
    ensures NormaliseKeys(KeyString("x, y ,z")) == NormaliseKeys(KeyList(["x", "y", "z"])) == Ok(["x", "y", "z"])
    ensures IsActive(ProviderEntry(None, Some(KeyString("x, y ,z"))))
    ensures IsActive(ProviderEntry(None, Some(KeyList(["x", "y", "z"]))))
  {
    SplitExample();
    StripExample();
    assert !IsSpace("x, y ,z"[0]);
    StripEmptyIffBlank("x, y ,z");
  }

  /**
   * The `Config` object: the parsed configuration and the cursor table.
   */
  class Config {
    const order: seq<string>
    const entries: Entries
    var keyIndices: map<string, nat>

    /** The cursor table has one cursor per active provider, each in range. */
    ghost predicate Valid()
      reads this
    {
      RegistryInvariant(order, entries, keyIndices)
    }

    /** `Config.__init__` given the parsed configuration: every active
        provider starts with cursor 0. */
    constructor (order: seq<string>, entries: Entries)
      requires WellFormedOrder(order, entries)
      ensures this.order == order && this.entries == entries
      ensures Valid()
      ensures keyIndices == map p | p in ActiveNames(entries) :: 0
    {
      this.order := order;
      this.entries := entries;
      keyIndices := map[];
      new;
      InitializeKeyIndices();
    }

    /** `_initialize_key_indices`: gives every active provider a cursor of 0. */
    method InitializeKeyIndices()
      requires WellFormedOrder(order, entries)
      requires keyIndices == map[]
      modifies this`keyIndices
      ensures keyIndices == map p | p in ActiveNames(entries) :: 0
      ensures Valid()
    {
      var i := 0;
      while i < |order|
        invariant 0 <= i <= |order|
        invariant forall p :: p in keyIndices <==> p in order[..i] && p in ActiveNames(entries)
        invariant forall p :: p in keyIndices ==> keyIndices[p] == 0
      {
        var provider := order[i];
        assert order[..i + 1] == order[..i] + [provider];
        if IsActive(entries[provider]) {
          keyIndices := keyIndices[provider := 0];
        }
        i := i + 1;
      }
      assert order[..i] == order;
      assert keyIndices.Keys == ActiveNames(entries);
    }

    /** `get_next_key`: returns the key under the provider's cursor and
        advances the cursor by one modulo the number of keys; on an error
        nothing changes. */
    method GetNextKey(provider: string) returns (r: Result<string>)
      requires Valid()
      modifies this`keyIndices
      ensures Valid()
      ensures r.Err? <==> KeysFor(entries, provider).Err?
      ensures r.Err? ==> r.error == KeysFor(entries, provider).error && keyIndices == old(keyIndices)
      ensures r.Ok? ==>
        var keys := KeysFor(entries, provider).value;
        provider in old(keyIndices) && old(keyIndices)[provider] < |keys| &&
        r.value == keys[old(keyIndices)[provider]] &&
        keyIndices == old(keyIndices)[provider := NextCursor(old(keyIndices)[provider], |keys|)]
    {
      var normalised := KeysFor(entries, provider);
      if normalised.Err? {
        return Err(normalised.error);
      }
      var keys := normalised.value;
      AdvanceKeepsInvariant(order, entries, keyIndices, provider, keys);
      var currentIndex := keyIndices[provider];
      r := Ok(keys[currentIndex]);
      keyIndices := keyIndices[provider := NextCursor(currentIndex, |keys|)];
    }

    /** `get_base_url`: the configured base URL, or an error when the provider
        or its `base_url` entry is missing. */
    function GetBaseUrl(provider: string): (r: Result<string>)
      ensures r.Ok? <==> provider in entries && entries[provider].baseUrl.Some?
      ensures r.Ok? ==> r.value == entries[provider].baseUrl.value
      ensures r.Err? ==> r.error == BaseUrlNotFound
    {
      if provider !in entries || entries[provider].baseUrl.None? then Err(BaseUrlNotFound)
      else Ok(entries[provider].baseUrl.value)
    }

    /** `get_providers`: exactly the active providers, in configuration order. */
    method GetProviders() returns (providers: seq<string>)
      requires WellFormedOrder(order, entries)
      ensures providers == ListedIn(order, entries)
      ensures forall p :: p in providers <==> p in ActiveNames(entries)
      ensures InConfigOrder(providers, order)
    {
      providers := [];
      var i := 0;
      while i < |order|
        invariant 0 <= i <= |order|
        invariant providers == ListedIn(order[..i], entries)
      {
        var provider := order[i];
        assert order[..i + 1][..i] == order[..i];
        if IsActive(entries[provider]) {
          providers := providers + [provider];
        }
        i := i + 1;
      }
      assert order[..i] == order;
      ListedInMembers(order, entries);
      ListedInOrder(order, entries);
    }
  }

  /** Fairness of the class: from cursor 0, `n` successive `GetNextKey` calls
      hand out `keys[0], keys[1], ...` cyclically, and leave the cursor at
      `n mod len(keys)`, with every other cursor unchanged. */
  method DispenseRounds(c: Config, provider: string, n: nat) returns (out: seq<string>)
    requires c.Valid()
    requires KeysFor(c.entries, provider).Ok?
    requires provider in c.keyIndices && c.keyIndices[provider] == 0
    modifies c`keyIndices
    ensures c.Valid()
    ensures var keys := KeysFor(c.entries, provider).value;
      |out| == n && (forall j :: 0 <= j < n ==> out[j] == keys[j % |keys|]) &&
      c.keyIndices == old(c.keyIndices)[provider := n % |keys|]
  {
    ghost var keys := KeysFor(c.entries, provider).value;
    out := [];
    var i := 0;
    while i < n
      invariant 0 <= i <= n && |out| == i
      invariant c.Valid()
      invariant c.keyIndices == old(c.keyIndices)[provider := CursorAfter(i, |keys|)]
      invariant forall j :: 0 <= j < i ==> out[j] == keys[CursorAfter(j, |keys|)]
    {
      ghost var before := c.keyIndices;
      var k := c.GetNextKey(provider);
      DispenseStep(old(c.keyIndices), before, c.keyIndices, provider, keys, i, out, k.value);
      out := out + [k.value];
      i := i + 1;
    }
    DispensedCyclically(out, keys, n);
  }

  /** One round of `DispenseRounds`: the key handed out is the one under
      the cursor after `i` dispenses, and the cursor moves to the one after
      `i + 1`. */
  lemma DispenseStep(start: map<string, nat>, before: map<string, nat>, after: map<string, nat>,
                     provider: string, keys: seq<string>, i: nat, out: seq<string>, key: string)
    requires keys != [] && |out| == i
    requires before == start[provider := CursorAfter(i, |keys|)]
    requires provider in before && before[provider] < |keys| && key == keys[before[provider]]
    requires after == before[provider := NextCursor(before[provider], |keys|)]
    requires forall j :: 0 <= j < i ==> out[j] == keys[CursorAfter(j, |keys|)]
    ensures after == start[provider := CursorAfter(i + 1, |keys|)]
    ensures forall j :: 0 <= j < i + 1 ==> (out + [key])[j] == keys[CursorAfter(j, |keys|)]
  {
    UpdateTwice(start, provider, before[provider], after[provider]);
    forall j | 0 <= j < i + 1 ensures (out + [key])[j] == keys[CursorAfter(j, |keys|)] {
      if j < i { assert (out + [key])[j] == out[j]; }
    }
  }

  /** Setting a key twice keeps the second value. */
  lemma UpdateTwice(m: map<string, nat>, p: string, a: nat, b: nat)
    ensures m[p := a][p := b] == m[p := b]
  {
  }

  /** Restating the dispensed keys through `CursorAfterIsModular`. */
  lemma DispensedCyclically(out: seq<string>, keys: seq<string>, n: nat)
    requires keys != [] && |out| == n
    requires forall j :: 0 <= j < n ==> out[j] == keys[CursorAfter(j, |keys|)]
    ensures forall j :: 0 <= j < n ==> out[j] == keys[j % |keys|]
    ensures CursorAfter(n, |keys|) == n % |keys|
  {
    forall j | 0 <= j < n ensures out[j] == keys[j % |keys|] {
      CursorAfterIsModular(j, |keys|);
    }
    CursorAfterIsModular(n, |keys|);
  }

  /** A client of `Config`: two keys rotate round-robin, a provider with an
      empty key list is not listed and cannot dispense. */
  method RotationScenario() {
    var entries := map["openai" := ProviderEntry(Some("https://api.openai.com"), Some(KeyList(["a", "b"]))),
                        "idle" := ProviderEntry(None, Some(KeyList([])))];
    var order := ["openai", "idle"];
    assert order[0] != order[1];
    assert WellFormedOrder(order, entries);
    var c := new Config(order, entries);
    assert KeysFor(entries, "openai") == Ok(["a", "b"]);
    var k1 := c.GetNextKey("openai");
    assert k1 == Ok("a");
    var k2 := c.GetNextKey("openai");
    assert k2 == Ok("b");
    var k3 := c.GetNextKey("openai");
    assert k3 == Ok("a");
    var k4 := c.GetNextKey("idle");
    assert k4 == Err(NoKeysAvailable);
    assert IsActive(entries["openai"]) && !IsActive(entries["idle"]);
    assert "openai" in ActiveNames(entries);
    assert "idle" !in ActiveNames(entries);
    var p := c.GetProviders();
    assert "openai" in p && "idle" !in p;
  }
}
