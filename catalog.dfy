/**
 * The FreeDict catalogue table and the `app:load` command that fills it:
 * each well-formed catalogue item (an array whose name is a language pair
 * such as `afr-deu`) is upserted under its name with the release that
 * `pickBestRelease` prefers; everything is committed by one final flush.
 */
module FreeDictCatalog {
  import opened Wrappers
  import opened Json
  import opened CatalogWorkflow
  import FS = FreeDictService
  import Text

  /** One catalogue row; `raw` is the whole item it was loaded from. */
  datatype CatalogRow = CatalogRow(
    name: string, src: string, dst: string,
    edition: Option<string>, headwords: Option<int>, maintainerName: Option<string>,
    sourceURL: Option<string>, status: Option<string>,
    bestUrl: Option<string>, bestPlatform: Option<string>,
    releaseDate: Option<string>, releaseVersion: Option<string>, releaseSize: Option<int>,
    raw: Option<Json>, marking: Place)

  /** A freshly constructed row: only its name is set, and it is in the initial place. */
  function NewRow(name: string): (r: CatalogRow)
    ensures r.name == name && r.marking == Initial
    ensures r.bestUrl.None? && r.bestPlatform.None? && r.raw.None?
  {
    CatalogRow(name, "", "", None, None, None, None, None, None, None, None, None, None, None, New)
  }

  /* ---------------- pair names ---------------- */

  /**
   * `array_pad(explode('-', $name, 2), 2, null)`: the part before the first
   * `-`, and the part after it (None when the name has no `-`).
   */
  function SplitName(name: string): (string, Option<string>)
  {
    var k := Text.IndexOf(name, '-');
    if k < |name| then (name[..k], Some(name[k + 1..])) else (name, None)
  }

  /** The first part has no `-`, and with the second part (when there is one) it makes the name. */
  lemma SplitNameJoins(name: string)
    ensures var r := SplitName(name);
      && (forall i | 0 <= i < |r.0| :: r.0[i] != '-')
      && (r.1.Some? ==> name == r.0 + "-" + r.1.value)
      && (r.1.None? ==> r.0 == name)
  {
    var k := Text.IndexOf(name, '-');
    if k < |name| {
      assert name == name[..k] + "-" + name[k + 1..];
    }
  }

  /** The split is the only one with a dash-free first part: the pair is recovered from the name. */
  lemma SplitNameUnique(src: string, dst: string)
    requires forall i | 0 <= i < |src| :: src[i] != '-'
    ensures SplitName(src + "-" + dst) == (src, Some(dst))
  {
    var name := src + "-" + dst;
    var k := Text.IndexOf(name, '-');
    assert name[|src|] == '-';
    assert forall i | 0 <= i < |src| :: name[i] == src[i];
    assert k == |src|;
    assert name[..k] == src && name[k + 1..] == dst;
  }

  /** PHP falsiness of a string: "" and "0". */
  predicate Falsy(s: string)
  {
    s == "" || s == "0"
  }

  /* ---------------- one catalogue item ---------------- */

  /** `$data['dictionaries'] ?? $data`: the item list, wrapped or not. */
  function CatalogItems(data: Json): Json
  {
    var d := Get(data, "dictionaries");
    if d != JNull then d else data
  }

  /** `(string)($item['name'] ?? '')`. */
  function ItemName(item: Json): string
  {
    ToStr(Get(item, "name"))
  }

  /** An item the loader keeps: an array whose name splits at a `-` into two truthy parts. */
  predicate Accepted(item: Json)
  {
    var name := ItemName(item);
    var parts := SplitName(name);
    item.IsArray() && name != "" && !Falsy(parts.0) && parts.1.Some? && !Falsy(parts.1.value)
  }

  /** `is_string($item[$key] ?? null) ? $item[$key] : null`. */
  function StringField(item: Json, key: string): Option<string>
  {
    match Get(item, key)
    case JStr(s) => Some(s)
    case _ => None
  }

  /** `is_numeric($item['headwords'] ?? null) ? (int)$item['headwords'] : null`. */
  function Headwords(item: Json): Option<int>
  {
    var h := Get(item, "headwords");
    if IsNumeric(h) then Some(NumericValue(h)) else None
  }

  /** `$s ?: null`. */
  function NullIfFalsy(s: string): (r: Option<string>)
    ensures r.None? <==> Falsy(s)
    ensures r.Some? ==> r.value == s
  {
    if Falsy(s) then None else Some(s)
  }

  /** The row after the loader has copied an accepted item into it; the marking is kept. */
  function FillRow(base: CatalogRow, item: Json, rel: FS.Release): CatalogRow
  {
    var name := ItemName(item);
    var parts := SplitName(name);
    base.(name := name, src := parts.0, dst := parts.1.GetOr(""),
          edition := StringField(item, "edition"), headwords := Headwords(item),
          maintainerName := StringField(item, "maintainerName"),
          sourceURL := StringField(item, "sourceURL"), status := StringField(item, "status"),
          bestUrl := Some(rel.url), bestPlatform := Some(rel.platform),
          releaseDate := NullIfFalsy(rel.date), releaseVersion := NullIfFalsy(rel.version),
          releaseSize := rel.size, raw := Some(item))
  }

  /** A row holds, in every field but its marking, what the loader copies from the item. */
  predicate Describes(row: CatalogRow, item: Json)
  {
    && Accepted(item)
    && FS.PickBestRelease(item, false).Success?
    && row == FillRow(row, item, FS.PickBestRelease(item, false).value)
  }

  /* ---------------- the whole load ---------------- */

  /** The rows by name and the number of items upserted so far. */
  datatype Loaded = Loaded(rows: map<string, CatalogRow>, count: nat)

  /** One iteration of the item loop; a `pickBestRelease` exception aborts the command. */
  function LoadStep(acc: Loaded, item: Json): Result<Loaded>
  {
    if !Accepted(item) then Success(acc)
    else
      var rel := FS.PickBestRelease(item, false);
      if rel.Failure? then Failure(rel.error)
      else Success(Loaded(UpsertRow(acc.rows, item, rel.value), acc.count + 1))
  }

  /**
   * The row stored under the item's name, or a new row for that name,
   * filled from the item and stored under its name: the upsert the command
   * evidently intends (`findOneByName($name) ?? new FreeDictCatalog()`
   * followed by `$row->name = $name` cannot do it as written; see
   * `LoadStepAsWritten`).
   */
  function UpsertRow(rows: map<string, CatalogRow>, item: Json, rel: FS.Release): map<string, CatalogRow>
  {
    var name := ItemName(item);
    var base := if name in rows then rows[name] else NewRow(name);
    rows[name := FillRow(base, item, rel)]
  }

  /** The item loop over a list of items, starting from the stored rows. */
  function LoadItems(rows: map<string, CatalogRow>, items: seq<Json>): Result<Loaded>
    decreases |items|
  {
    if items == [] then Success(Loaded(rows, 0))
    else
      match LoadItems(rows, items[..|items| - 1])
      case Failure(e) => Failure(e)
      case Success(acc) => LoadStep(acc, items[|items| - 1])
  }

  /** How many of the items are accepted. */
  function CountAccepted(items: seq<Json>): (n: nat)
    ensures n <= |items|
    decreases |items|
  {
    if items == [] then 0
    else CountAccepted(items[..|items| - 1]) + (if Accepted(items[|items| - 1]) then 1 else 0)
  }

  /** Some accepted item among the given ones carries this name. */
  predicate Named(items: seq<Json>, n: string)
  {
    exists i | 0 <= i < |items| :: Accepted(items[i]) && ItemName(items[i]) == n
  }

  /** The count reported is the number of accepted items: each is upserted exactly once. */
  lemma {:induction false} LoadCountsAccepted(rows: map<string, CatalogRow>, items: seq<Json>)
    ensures LoadItems(rows, items).Success? ==> LoadItems(rows, items).value.count == CountAccepted(items)
    decreases |items|
  {
    if items != [] {
      LoadCountsAccepted(rows, items[..|items| - 1]);
    }
  }

  /** Some accepted item among the given ones has no releases. */
  predicate Releaseless(items: seq<Json>)
  {
    exists i | 0 <= i < |items| :: Accepted(items[i]) && !FS.HasReleases(items[i])
  }

  /** The load aborts exactly when some accepted item has no releases to pick from. */
  lemma {:induction false} LoadFails(rows: map<string, CatalogRow>, items: seq<Json>)
    ensures LoadItems(rows, items).Failure? <==> Releaseless(items)
    decreases |items|
  {
    if items != [] {
      var init, last := items[..|items| - 1], items[|items| - 1];
      LoadFails(rows, init);
      assert items == init + [last];
      ReleaselessSnoc(init, last);
      if last.IsArray() {
        FS.PickBestReleaseFails(last, false);
      }
    }
  }

  lemma ReleaselessSnoc(init: seq<Json>, last: Json)
    ensures Releaseless(init + [last]) <==> Releaseless(init) || (Accepted(last) && !FS.HasReleases(last))
  {
    var items := init + [last];
    if Releaseless(init) {
      var i :| 0 <= i < |init| && Accepted(init[i]) && !FS.HasReleases(init[i]);
      assert items[i] == init[i];
    }
    if Accepted(last) && !FS.HasReleases(last) {
      assert items[|init|] == last;
    }
    if Releaseless(items) {
      var i :| 0 <= i < |items| && Accepted(items[i]) && !FS.HasReleases(items[i]);
      if i < |init| {
        assert init[i] == items[i];
      }
    }
  }

  /** Once an item has aborted the load, later items change nothing. */
  lemma {:induction false} FailureSticks(rows: map<string, CatalogRow>, items: seq<Json>, i: nat)
    requires i <= |items| && LoadItems(rows, items[..i]).Failure?
    ensures LoadItems(rows, items) == LoadItems(rows, items[..i])
    decreases |items|
  {
    if i < |items| {
      var init := items[..|items| - 1];
      assert init[..i] == items[..i];
      FailureSticks(rows, init, i);
    } else {
      assert items[..i] == items;
    }
  }

  /**
   * The rows after loading some items: the names are those stored before
   * plus those of the accepted items; rows no item names are untouched;
   * every row an item names is keyed by its own name; and markings are never
   * changed: a stored row keeps its place and a new row is in place new.
   */
  ghost predicate Shaped(rows: map<string, CatalogRow>, items: seq<Json>, out: map<string, CatalogRow>)
  {
    && SameKeys(rows, items, out) && Untouched(rows, items, out)
    && KeyedByName(items, out) && SameMarks(rows, out)
  }

  ghost predicate SameKeys(rows: map<string, CatalogRow>, items: seq<Json>, out: map<string, CatalogRow>)
  {
    forall n :: n in out <==> n in rows || Named(items, n)
  }

  ghost predicate Untouched(rows: map<string, CatalogRow>, items: seq<Json>, out: map<string, CatalogRow>)
  {
    forall n | n in rows && !Named(items, n) :: n in out && out[n] == rows[n]
  }

  ghost predicate KeyedByName(items: seq<Json>, out: map<string, CatalogRow>)
  {
    forall n | n in out && Named(items, n) :: out[n].name == n
  }

  predicate SameMarks(rows: map<string, CatalogRow>, out: map<string, CatalogRow>)
  {
    forall n | n in out :: out[n].marking == (if n in rows then rows[n].marking else New)
  }

  lemma {:induction false} LoadRowsShape(rows: map<string, CatalogRow>, items: seq<Json>)
    requires LoadItems(rows, items).Success?
    ensures Shaped(rows, items, LoadItems(rows, items).value.rows)
    decreases |items|
  {
    if items != [] {
      var init, last := items[..|items| - 1], items[|items| - 1];
      var acc := LoadItems(rows, init);
      assert acc.Success? && LoadItems(rows, items) == LoadStep(acc.value, last);
      LoadRowsShape(rows, init);
      assert items == init + [last];
      StepEffect(acc.value, last);
      ShapeStep(rows, init, last, acc.value.rows, LoadItems(rows, items).value.rows);
    }
  }

  /** One more item keeps the rows shaped. */
  lemma ShapeStep(rows: map<string, CatalogRow>, init: seq<Json>, last: Json,
                  before: map<string, CatalogRow>, out: map<string, CatalogRow>)
    requires Shaped(rows, init, before) && Stepped(before, last, out)
    ensures Shaped(rows, init + [last], out)
  {
    NamedSnoc(init, last);
    KeysStep(rows, init, last, before, out);
    UntouchedStep(rows, init, last, before, out);
    KeyedStep(init, last, before, out);
    MarksStep(rows, init, last, before, out);
  }

  lemma KeysStep(rows: map<string, CatalogRow>, init: seq<Json>, last: Json,
                 before: map<string, CatalogRow>, out: map<string, CatalogRow>)
    requires SameKeys(rows, init, before) && Stepped(before, last, out)
    requires forall n :: Named(init + [last], n) <==> Named(init, n) || (Accepted(last) && ItemName(last) == n)
    ensures SameKeys(rows, init + [last], out)
  {
  }

  lemma UntouchedStep(rows: map<string, CatalogRow>, init: seq<Json>, last: Json,
                      before: map<string, CatalogRow>, out: map<string, CatalogRow>)
    requires Untouched(rows, init, before) && Stepped(before, last, out)
    requires forall n :: Named(init + [last], n) <==> Named(init, n) || (Accepted(last) && ItemName(last) == n)
    ensures Untouched(rows, init + [last], out)
  {
  }

  lemma KeyedStep(init: seq<Json>, last: Json, before: map<string, CatalogRow>, out: map<string, CatalogRow>)
    requires KeyedByName(init, before) && Stepped(before, last, out)
    requires forall n :: Named(init + [last], n) <==> Named(init, n) || (Accepted(last) && ItemName(last) == n)
    ensures KeyedByName(init + [last], out)
  {
  }

  lemma MarksStep(rows: map<string, CatalogRow>, init: seq<Json>, last: Json,
                  before: map<string, CatalogRow>, out: map<string, CatalogRow>)
    requires SameKeys(rows, init, before) && SameMarks(rows, before) && Stepped(before, last, out)
    ensures SameMarks(rows, out)
  {
  }

  /**
   * What one item does to the rows: an accepted item changes at most the row
   * under its own name, keeping that row's marking; any other item changes nothing.
   */
  predicate Stepped(before: map<string, CatalogRow>, item: Json, out: map<string, CatalogRow>)
  {
    var n := ItemName(item);
    if Accepted(item) then
      && n in out && out == before[n := out[n]] && out[n].name == n
      && out[n].marking == (if n in before then before[n].marking else New)
    else out == before
  }

  lemma StepEffect(acc: Loaded, item: Json)
    requires LoadStep(acc, item).Success?
    ensures Stepped(acc.rows, item, LoadStep(acc, item).value.rows)
  {
  }

  /** Naming by a list with one more item. */
  lemma NamedSnoc(init: seq<Json>, last: Json)
    ensures forall n :: Named(init + [last], n) <==> Named(init, n) || (Accepted(last) && ItemName(last) == n)
  {
    var items := init + [last];
    forall n ensures Named(items, n) <==> Named(init, n) || (Accepted(last) && ItemName(last) == n) {
      if Named(init, n) {
        var i :| 0 <= i < |init| && Accepted(init[i]) && ItemName(init[i]) == n;
        assert items[i] == init[i];
      }
      if Accepted(last) && ItemName(last) == n {
        assert items[|init|] == last;
      }
      if Named(items, n) {
        var i :| 0 <= i < |items| && Accepted(items[i]) && ItemName(items[i]) == n;
        if i < |init| {
          assert init[i] == items[i];
        }
      }
    }
    assert items[..|items| - 1] == init;
  }

  /**
   * Keyed upsert, last item wins: an accepted item that no later accepted
   * item shares a name with leaves its row holding exactly its data.
   */
  lemma {:induction false} LoadLastItemWins(rows: map<string, CatalogRow>, items: seq<Json>, i: nat)
    requires LoadItems(rows, items).Success?
    requires i < |items| && Accepted(items[i])
    requires forall j | i < j < |items| :: Accepted(items[j]) ==> ItemName(items[j]) != ItemName(items[i])
    ensures var out := LoadItems(rows, items).value.rows;
      ItemName(items[i]) in out && Describes(out[ItemName(items[i])], items[i])
    decreases |items|
  {
    var init, last := items[..|items| - 1], items[|items| - 1];
    var acc := LoadItems(rows, init);
    assert acc.Success? && LoadItems(rows, items) == LoadStep(acc.value, last);
    if i == |items| - 1 {
      var rel := FS.PickBestRelease(last, false);
      var name := ItemName(last);
      var base := if name in acc.value.rows then acc.value.rows[name] else NewRow(name);
      assert rel.Success? && LoadItems(rows, items).value.rows[name] == FillRow(base, last, rel.value);
      FillRowDescribes(base, last, rel.value);
    } else {
      StepEffect(acc.value, last);
      forall j | i < j < |init| ensures Accepted(init[j]) ==> ItemName(init[j]) != ItemName(init[i]) {
        assert init[j] == items[j];
      }
      assert init[i] == items[i];
      LoadLastItemWins(rows, init, i);
    }
  }

  /** A filled row describes its item, whatever row it was filled into. */
  lemma FillRowDescribes(base: CatalogRow, item: Json, rel: FS.Release)
    requires Accepted(item) && FS.PickBestRelease(item, false) == Success(rel)
    ensures Describes(FillRow(base, item, rel), item)
  {
  }

  /** The item loop after one more item. */
  lemma LoadItemsSnoc(rows: map<string, CatalogRow>, items: seq<Json>, i: nat)
    requires i < |items|
    ensures LoadItems(rows, items[..i + 1]) ==
      match LoadItems(rows, items[..i])
      case Failure(e) => Failure(e)
      case Success(acc) => LoadStep(acc, items[i])
  {
    assert items[..i + 1][..i] == items[..i];
  }

  /** The body of the item loop: skip, abort, or upsert the row under the item's name. */
  method UpsertItem(acc: Loaded, item: Json) returns (r: Result<Loaded>)
    ensures r == LoadStep(acc, item)
  {
    if !item.IsArray() {
      return Success(acc);
    }
    var name := ItemName(item);
    if name == "" {
      return Success(acc);
    }
    var parts := SplitName(name);
    if Falsy(parts.0) || parts.1.None? || Falsy(parts.1.value) {
      return Success(acc);
    }
    assert Accepted(item);
    var rel := FS.PickBestRelease(item, false);
    if rel.Failure? {
      return Failure(rel.error);
    }
    StepUpserts(acc, item, rel.value);
    return Success(Loaded(UpsertRow(acc.rows, item, rel.value), acc.count + 1));
  }

  lemma StepUpserts(acc: Loaded, item: Json, rel: FS.Release)
    requires Accepted(item) && FS.PickBestRelease(item, false) == Success(rel)
    ensures LoadStep(acc, item).Success?
    ensures LoadStep(acc, item).value.rows == UpsertRow(acc.rows, item, rel)
    ensures LoadStep(acc, item).value.count == acc.count + 1
  {
  }

  /** The item loop of `app:load`, on the rows as they were read. */
  method LoadLoop(rows0: map<string, CatalogRow>, elems: seq<Json>) returns (r: Result<Loaded>)
    ensures r == LoadItems(rows0, elems)
  {
    var acc := rows0;
    var count := 0;
    for i := 0 to |elems|
      invariant LoadItems(rows0, elems[..i]) == Success(Loaded(acc, count))
    {
      LoadItemsSnoc(rows0, elems, i);
      var next := UpsertItem(Loaded(acc, count), elems[i]);
      if next.Failure? {
        FailureSticks(rows0, elems, i + 1);
        return next;
      }
      acc, count := next.value.rows, next.value.count;
    }
    assert elems[..|elems|] == elems;
    return Success(Loaded(acc, count));
  }

  /* ---------------- the item loop as written ---------------- */

  /**
   * The loop body as written. Once a release is picked, the row is either
   * the stored one, whose name is `private(set) readonly` and so cannot be
   * assigned by the command, or `new FreeDictCatalog()`, which lacks the
   * constructor's one argument; both throw, so no accepted item is ever
   * upserted.
   */
  function LoadStepAsWritten(acc: Loaded, item: Json): Result<Loaded>
  {
    if !Accepted(item) then Success(acc)
    else
      var rel := FS.PickBestRelease(item, false);
      if rel.Failure? then Failure(rel.error)
      else if ItemName(item) in acc.rows then Failure("Cannot modify readonly property App\\Entity\\FreeDictCatalog::$name")
      else Failure("Too few arguments to function App\\Entity\\FreeDictCatalog::__construct()")
  }

  /** The item loop with the loop body as written. */
  function LoadItemsAsWritten(rows: map<string, CatalogRow>, items: seq<Json>): Result<Loaded>
    decreases |items|
  {
    if items == [] then Success(Loaded(rows, 0))
    else
      match LoadItemsAsWritten(rows, items[..|items| - 1])
      case Failure(e) => Failure(e)
      case Success(acc) => LoadStepAsWritten(acc, items[|items| - 1])
  }

  /**
   * As written, the load completes only when no item is accepted, and then
   * it stores nothing and counts nothing.
   */
  lemma {:induction false} LoadAsWrittenUpsertsNothing(rows: map<string, CatalogRow>, items: seq<Json>)
    ensures LoadItemsAsWritten(rows, items).Success? <==> CountAccepted(items) == 0
    ensures LoadItemsAsWritten(rows, items).Success? ==> LoadItemsAsWritten(rows, items).value == Loaded(rows, 0)
    decreases |items|
  {
    if items != [] {
      LoadAsWrittenUpsertsNothing(rows, items[..|items| - 1]);
    }
  }

  /**
   * The discrepancy: whenever some item is accepted and none lacks a
   * release, the intended load succeeds and counts every accepted item,
   * while the load as written throws.
   */
  lemma LoadAsWrittenDiffers(rows: map<string, CatalogRow>, items: seq<Json>)
    requires CountAccepted(items) > 0 && !Releaseless(items)
    ensures LoadItems(rows, items).Success? && LoadItems(rows, items).value.count == CountAccepted(items)
    ensures LoadItemsAsWritten(rows, items).Failure?
  {
    LoadFails(rows, items);
    LoadCountsAccepted(rows, items);
    LoadAsWrittenUpsertsNothing(rows, items);
  }

  /* ---------------- the repository ---------------- */

  /** What `app:load` ends with. */
  datatype LoadOutcome =
    | Unrecognized             // exit code 1: the catalogue is not an array
    | Upserted(count: nat)     // exit code 0
    | Threw(message: string)   // an exception left the command; nothing was flushed

  /** The catalogue table, by name. */
  class CatalogRepository {
    var rows: map<string, CatalogRow>

    constructor(rows0: map<string, CatalogRow>)
      ensures rows == rows0
    {
      rows := rows0;
    }

    /**
     * `app:load` on the fetched catalogue: the rows are committed only when
     * every item has been handled.
     */
    method Load(data: Json) returns (outcome: LoadOutcome)
      modifies this
      ensures !CatalogItems(data).IsArray() ==> outcome == Unrecognized && rows == old(rows)
      ensures CatalogItems(data).IsArray() ==>
        match LoadItems(old(rows), Elements(CatalogItems(data)))
        case Failure(e) => outcome == Threw(e) && rows == old(rows)
        case Success(l) => outcome == Upserted(l.count) && rows == l.rows
    {
      var items := CatalogItems(data);
      if !items.IsArray() {
        return Unrecognized;
      }
      var loaded := LoadLoop(rows, Elements(items));
      if loaded.Failure? {
        return Threw(loaded.error);
      }
      rows := loaded.value.rows;
      return Upserted(loaded.value.count);
    }
  }
}
