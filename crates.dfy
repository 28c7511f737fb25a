/**
 * Crate definitions from the plugin's catalog and the pure functions over drop lists that
 * the crate tile uses: the items and commands a list of draws grants, the stable
 * descending-by-chance order of the preview, and the total chance.
 */
module Crates {
  import opened Wrappers

  /** An item stack: its item identifier and its count. */
  datatype Item = Item(id: string, count: nat)

  /**
   * One possible drop of a crate: the item it shows (and grants when `kind` is "item"),
   * the commands run when it is drawn, and its chance (a relative weight).
   */
  datatype CrateItem = CrateItem(item: Item, kind: string, commands: seq<string>, chance: real)

  /** A catalog entry: its name, its drops, how many drops an opening draws, the commands
      always run on opening, and the floating text shown above placed crates. */
  datatype Crate = Crate(
    name: string,
    drops: seq<CrateItem>,
    dropCount: int,
    commands: seq<string>,
    floatingText: string)

  /** The drop type whose item is added to the opener's inventory. */
  const ItemKind := "item"

  /** The catalog of crates, keyed by crate name. */
  type Catalog = map<string, Crate>

  /** Every catalog entry is stored under its own name. */
  ghost predicate CatalogWellFormed(catalog: Catalog)
  {
    forall name :: name in catalog ==> catalog[name].name == name
  }

  /** The catalog lookup by name: the crate, or null when no crate has that name. */
  function GetCrate(catalog: Catalog, name: string): (r: Option<Crate>)
    requires CatalogWellFormed(catalog)
    ensures r.Some? <==> name in catalog
    ensures r.Some? ==> r.value.name == name && r.value == catalog[name]
  {
    if name in catalog then Some(catalog[name]) else None
  }

  // ---------------------------------------------------------------------------------------
  // What a list of draws grants

  /** The items granted for `draws`, in draw order: one per draw of kind "item". */
  function ItemGrants(draws: seq<CrateItem>): seq<Item>
  {
    if draws == [] then []
    else
      var last := draws[|draws| - 1];
      ItemGrants(draws[..|draws| - 1]) + (if last.kind == ItemKind then [last.item] else [])
  }

  /** The per-drop commands for `draws`: each draw's commands in order, draw after draw. */
  function DrawCommands(draws: seq<CrateItem>): seq<string>
  {
    if draws == [] then []
    else DrawCommands(draws[..|draws| - 1]) + draws[|draws| - 1].commands
  }

  /** Appending a draw appends its item (for kind "item") and its commands. */
  lemma LastDraw(done: seq<CrateItem>, d: CrateItem)
    ensures ItemGrants(done + [d]) == ItemGrants(done) + (if d.kind == ItemKind then [d.item] else [])
    ensures DrawCommands(done + [d]) == DrawCommands(done) + d.commands
  {
    assert (done + [d])[..|done|] == done;
  }

  /** Draws of kind "item" each grant their item; other draws grant nothing. */
  lemma {:induction false} ItemGrantsShape(draws: seq<CrateItem>)
    ensures |ItemGrants(draws)| <= |draws|
    ensures (forall i :: 0 <= i < |draws| ==> draws[i].kind == ItemKind) ==>
              |ItemGrants(draws)| == |draws| &&
              forall i :: 0 <= i < |draws| ==> ItemGrants(draws)[i] == draws[i].item
    ensures (forall i :: 0 <= i < |draws| ==> draws[i].kind != ItemKind) ==> ItemGrants(draws) == []
    ensures forall x :: x in ItemGrants(draws) ==>
              exists i :: 0 <= i < |draws| && draws[i].kind == ItemKind && draws[i].item == x
  {
    if draws != [] {
      var init := draws[..|draws| - 1];
      ItemGrantsShape(init);
      assert forall i :: 0 <= i < |init| ==> init[i] == draws[i];
    }
  }

  /** The items of a concatenation of draw lists are the concatenated items. */
  lemma {:induction false} ItemGrantsAppend(a: seq<CrateItem>, b: seq<CrateItem>)
    ensures ItemGrants(a + b) == ItemGrants(a) + ItemGrants(b)
    decreases |b|
  {
    if b == [] {
      assert a + b == a;
    } else {
      var init := b[..|b| - 1];
      ItemGrantsAppend(a, init);
      assert (a + b)[..|a + b| - 1] == a + init;
    }
  }

  /**
   * The item of an item-kind draw `i` is granted exactly at its place: right after the items
   * of all earlier draws.
   */
  lemma ItemGrantsAt(draws: seq<CrateItem>, i: int)
    requires 0 <= i < |draws| && draws[i].kind == ItemKind
    ensures |ItemGrants(draws[..i])| < |ItemGrants(draws)|
    ensures ItemGrants(draws)[|ItemGrants(draws[..i])|] == draws[i].item
  {
    var before, after := draws[..i], draws[i + 1..];
    assert draws == before + ([draws[i]] + after);
    ItemGrantsAppend(before, [draws[i]] + after);
    ItemGrantsAppend([draws[i]], after);
    assert [draws[i]][..0] == [];
  }

  /** The commands of a concatenation of draw lists are the concatenated commands. */
  lemma {:induction false} DrawCommandsAppend(a: seq<CrateItem>, b: seq<CrateItem>)
    ensures DrawCommands(a + b) == DrawCommands(a) + DrawCommands(b)
    decreases |b|
  {
    if b == [] {
      assert a + b == a;
    } else {
      var init, last := b[..|b| - 1], b[|b| - 1];
      DrawCommandsAppend(a, init);
      assert (a + b)[..|a + b| - 1] == a + init && (a + b)[|a + b| - 1] == last;
      assert DrawCommands(a + b) == DrawCommands(a + init) + last.commands;
    }
  }

  /**
   * Command `j` of draw `i` is dispatched exactly at its place: after the commands of all
   * earlier draws and the first `j` commands of draw `i`.
   */
  lemma DrawCommandsAt(draws: seq<CrateItem>, i: int, j: int)
    requires 0 <= i < |draws| && 0 <= j < |draws[i].commands|
    ensures |DrawCommands(draws[..i])| + j < |DrawCommands(draws)|
    ensures DrawCommands(draws)[|DrawCommands(draws[..i])| + j] == draws[i].commands[j]
  {
    var before, after := draws[..i], draws[i + 1..];
    assert draws == before + ([draws[i]] + after);
    DrawCommandsAppend(before, [draws[i]] + after);
    DrawCommandsAppend([draws[i]], after);
    assert [draws[i]][..0] == [];
  }

  // ---------------------------------------------------------------------------------------
  // The preview order: descending by chance, equal chances keeping their order

  /** `s` is in descending order of chance. */
  ghost predicate Descending(s: seq<CrateItem>)
  {
    forall i, j :: 0 <= i < j < |s| ==> s[i].chance >= s[j].chance
  }

  /** Inserts `x` into `s` after every element whose chance is at least `x`'s. */
  function InsertDesc(s: seq<CrateItem>, x: CrateItem): (r: seq<CrateItem>)
    ensures |r| == |s| + 1
  {
    if s == [] then [x]
    else if s[|s| - 1].chance < x.chance then InsertDesc(s[..|s| - 1], x) + [s[|s| - 1]]
    else s + [x]
  }

  /** The stable sort by descending chance (the order `usort` gives under PHP 8). */
  function SortDesc(s: seq<CrateItem>): (r: seq<CrateItem>)
    ensures |r| == |s|
  {
    if s == [] then []
    else InsertDesc(SortDesc(s[..|s| - 1]), s[|s| - 1])
  }

  /** The sum of the chances of `s`. */
  function TotalChance(s: seq<CrateItem>): real
  {
    if s == [] then 0.0 else TotalChance(s[..|s| - 1]) + s[|s| - 1].chance
  }

  lemma {:induction false} InsertDescPermutes(s: seq<CrateItem>, x: CrateItem)
    ensures multiset(InsertDesc(s, x)) == multiset(s) + multiset{x}
    decreases |s|
  {
    if s != [] && s[|s| - 1].chance < x.chance {
      var init := s[..|s| - 1];
      InsertDescPermutes(init, x);
      assert s == init + [s[|s| - 1]];
    }
  }

  /** Appending a drop adds its chance to the total. */
  lemma TotalChanceSnoc(s: seq<CrateItem>, y: CrateItem)
    ensures TotalChance(s + [y]) == TotalChance(s) + y.chance
  {
    assert (s + [y])[..|s|] == s;
  }

  lemma {:induction false} InsertDescTotal(s: seq<CrateItem>, x: CrateItem)
    ensures TotalChance(InsertDesc(s, x)) == TotalChance(s) + x.chance
    decreases |s|
  {
    if s == [] {
      TotalChanceSnoc([], x);
      assert [] + [x] == [x];
    } else if s[|s| - 1].chance < x.chance {
      var init, last := s[..|s| - 1], s[|s| - 1];
      InsertDescTotal(init, x);
      TotalChanceSnoc(InsertDesc(init, x), last);
      assert TotalChance(s) == TotalChance(init) + last.chance;
    } else {
      TotalChanceSnoc(s, x);
    }
  }

  lemma {:induction false} InsertDescSorted(s: seq<CrateItem>, x: CrateItem)
    requires Descending(s)
    ensures Descending(InsertDesc(s, x))
    decreases |s|
  {
    if s != [] && s[|s| - 1].chance < x.chance {
      var init, last := s[..|s| - 1], s[|s| - 1];
      InsertDescSorted(init, x);
      InsertDescPermutes(init, x);
      var r := InsertDesc(init, x);
      forall k | 0 <= k < |r|
        ensures r[k].chance >= last.chance
      {
        assert r[k] in multiset(r);
        if r[k] != x {
          assert r[k] in multiset(init);
          var m :| 0 <= m < |init| && init[m] == r[k];
          assert s[m] == init[m];
        }
      }
    }
  }

  /** The preview order is descending and a permutation of the drops, with the same total. */
  lemma SortDescCorrect(s: seq<CrateItem>)
    ensures Descending(SortDesc(s))
    ensures multiset(SortDesc(s)) == multiset(s)
    ensures TotalChance(SortDesc(s)) == TotalChance(s)
  {
    SortDescSorted(s);
    SortDescPermutes(s);
    SortDescTotal(s);
  }

  lemma {:induction false} SortDescSorted(s: seq<CrateItem>)
    ensures Descending(SortDesc(s))
  {
    if s != [] {
      SortDescSorted(s[..|s| - 1]);
      InsertDescSorted(SortDesc(s[..|s| - 1]), s[|s| - 1]);
    }
  }

  lemma {:induction false} SortDescPermutes(s: seq<CrateItem>)
    ensures multiset(SortDesc(s)) == multiset(s)
  {
    if s != [] {
      var init, last := s[..|s| - 1], s[|s| - 1];
      var sorted := SortDesc(init);
      SortDescPermutes(init);
      InsertDescPermutes(sorted, last);
      assert SortDesc(s) == InsertDesc(sorted, last);
      assert s == init + [last];
      assert multiset(s) == multiset(init) + multiset{last};
    }
  }

  lemma {:induction false} SortDescTotal(s: seq<CrateItem>)
    ensures TotalChance(SortDesc(s)) == TotalChance(s)
  {
    if s != [] {
      SortDescTotal(s[..|s| - 1]);
      InsertDescTotal(SortDesc(s[..|s| - 1]), s[|s| - 1]);
    }
  }

  /** Inserting into a prefix cut just after the insertion point only rebuilds that prefix. */
  lemma {:induction false} InsertDescPrefix(s: seq<CrateItem>, x: CrateItem, j: nat)
    requires j <= |s|
    requires forall k :: j <= k < |s| ==> s[k].chance < x.chance
    ensures InsertDesc(s, x) == InsertDesc(s[..j], x) + s[j..]
    decreases |s| - j
  {
    if j < |s| {
      InsertDescPrefix(s, x, j + 1);
      var p := s[..j + 1];
      assert p[..|p| - 1] == s[..j];
      assert InsertDesc(p, x) == InsertDesc(s[..j], x) + [s[j]];
      assert s[j..] == [s[j]] + s[j + 1..];
    } else {
      assert s[..j] == s;
    }
  }

  /** `x` goes right after a prefix whose last chance is at least `x`'s. */
  lemma InsertDescAfter(s: seq<CrateItem>, x: CrateItem)
    requires s == [] || s[|s| - 1].chance >= x.chance
    ensures InsertDesc(s, x) == s + [x]
  {
  }

  // ---------------------------------------------------------------------------------------
  // The preview menu

  /** Slots of the single and double chest menus, and the most drops a preview shows. */
  const ChestSlots := 27
  const DoubleChestSlots := 54
  const MaxPreviewItems := 54

  /** The menu chosen for `n` drops: a double chest above 27 drops, else a single chest. */
  function MenuSize(n: nat): (size: nat)
    ensures n <= ChestSlots ==> size == ChestSlots
    ensures n > ChestSlots ==> size == DoubleChestSlots
    ensures size >= ChestSlots && size <= DoubleChestSlots
    ensures n <= MaxPreviewItems ==> n <= size
    ensures n > MaxPreviewItems ==> size == MaxPreviewItems
  {
    if n > ChestSlots then DoubleChestSlots else ChestSlots
  }
}
