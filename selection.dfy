/**
 Dataset selection: the class `DatasetList` (lclsStrip2D.py:31-52) and the
 traversal that feeds it (`H_IN.visititems(data.addDataset)`, line 70).

 The traversal is given as the sequence of (name, node) pairs it produces,
 in its order: `name` is the path relative to the file's root that the
 traversal passes to the visitor, and a node's own `path` is the absolute
 path that the copy uses later.
 */
module Selection {
  import opened Patterns

  /** What the copy carries over unchanged: element type, shape and values. */
  datatype Payload = Payload(dtype: string, shape: seq<nat>, values: seq<int>)

  /** A dataset and its absolute path (`d.name`). */
  datatype Dataset = Dataset(path: string, payload: Payload)

  /** A node of the tree: a group, or a dataset. */
  datatype Node = GroupNode(path: string) | DatasetNode(dataset: Dataset)

  /** One call of the visitor: the name passed to it and the node. */
  datatype Item = Item(name: string, node: Node)

  /** Which of the two visitor methods `addDataset` is bound to. */
  datatype Visitor = WithSkip | WithOutSkip

  /** Does the bound visitor append this item? Only datasets are appended;
      the skipping visitor also demands that the skip expression does not
      match the name. */
  predicate Accepts(v: Visitor, skip: string, item: Item)
  {
    item.node.DatasetNode? && (v.WithSkip? ==> !Search(skip, item.name))
  }

  /** The datasets appended by visiting `items` in order, starting from an
      empty list. */
  function Selected(v: Visitor, skip: string, items: seq<Item>): seq<Dataset>
    decreases |items|
  {
    if |items| == 0 then []
    else
      var last := items[|items| - 1];
      Selected(v, skip, items[..|items| - 1])
      + (if Accepts(v, skip, last) then [last.node.dataset] else [])
  }

  /** Visiting `a` then `b` appends what visiting `a` appends, then what
      visiting `b` appends: the list only ever grows at its end, in
      visiting order. */
  lemma {:induction false} SelectedAppend(v: Visitor, skip: string, a: seq<Item>, b: seq<Item>)
    ensures Selected(v, skip, a + b) == Selected(v, skip, a) + Selected(v, skip, b)
    decreases |b|
  {
    if |b| > 0 {
      var ab := a + b;
      assert ab[..|ab| - 1] == a + b[..|b| - 1];
      assert ab[|ab| - 1] == b[|b| - 1];
      SelectedAppend(v, skip, a, b[..|b| - 1]);
    } else {
      assert a + b == a;
    }
  }

  /** A dataset is selected iff some visited item is that dataset and the
      visitor accepts it; groups are never selected. */
  lemma {:induction false} SelectedMembers(v: Visitor, skip: string, items: seq<Item>, d: Dataset)
    ensures d in Selected(v, skip, items)
            <==> exists i :: 0 <= i < |items| && items[i].node == DatasetNode(d) && Accepts(v, skip, items[i])
    decreases |items|
  {
    if |items| > 0 {
      var init := items[..|items| - 1];
      SelectedMembers(v, skip, init, d);
      assert forall i :: 0 <= i < |init| ==> init[i] == items[i];
    }
  }

  /** Every selected dataset comes from an accepted item, and the selection
      is never longer than the visit. */
  lemma {:induction false} SelectedBounded(v: Visitor, skip: string, items: seq<Item>)
    ensures |Selected(v, skip, items)| <= |items|
    decreases |items|
  {
    if |items| > 0 {
      SelectedBounded(v, skip, items[..|items| - 1]);
    }
  }

  /** No two datasets share a path. */
  predicate DistinctPaths(ds: seq<Dataset>)
  {
    forall i, j :: 0 <= i < j < |ds| ==> ds[i].path != ds[j].path
  }

  /** No two visited datasets share a path, as in an HDF5 file, where each
      object has one absolute name. */
  predicate DistinctDatasetPaths(items: seq<Item>)
  {
    forall i, j :: 0 <= i < j < |items| && items[i].node.DatasetNode? && items[j].node.DatasetNode?
                   ==> items[i].node.dataset.path != items[j].node.dataset.path
  }

  /** The selection of a visit without repeated paths has no repeated paths. */
  lemma {:induction false} SelectedDistinct(v: Visitor, skip: string, items: seq<Item>)
    requires DistinctDatasetPaths(items)
    ensures DistinctPaths(Selected(v, skip, items))
    decreases |items|
  {
    if |items| > 0 {
      var init := items[..|items| - 1];
      var last := items[|items| - 1];
      assert forall i :: 0 <= i < |init| ==> init[i] == items[i];
      assert DistinctDatasetPaths(init);
      SelectedDistinct(v, skip, init);
      var sel := Selected(v, skip, init);
      if Accepts(v, skip, last) {
        forall k | 0 <= k < |sel| ensures sel[k].path != last.node.dataset.path {
          SelectedMembers(v, skip, init, sel[k]);
          var i :| 0 <= i < |init| && init[i].node == DatasetNode(sel[k]) && Accepts(v, skip, init[i]);
          assert items[i].node.dataset == sel[k];
        }
        var r := sel + [last.node.dataset];
        forall i, j | 0 <= i < j < |r| ensures r[i].path != r[j].path {
          if j < |sel| { assert r[i] == sel[i] && r[j] == sel[j]; }
        }
      }
    }
  }

  /** With the skipping visitor and a list of patterns without "|", a
      dataset is kept iff it was visited under a name in which no pattern
      occurs. */
  lemma SelectedBySkipList(patterns: seq<string>, items: seq<Item>, d: Dataset)
    requires |patterns| >= 1
    requires forall k :: 0 <= k < |patterns| ==> '|' !in patterns[k]
    ensures d in Selected(WithSkip, SkipRegex(patterns), items)
            <==> exists i :: 0 <= i < |items| && items[i].node == DatasetNode(d)
                             && forall k :: 0 <= k < |patterns| ==> !Occurs(patterns[k], items[i].name)
  {
    SelectedMembers(WithSkip, SkipRegex(patterns), items, d);
    forall i | 0 <= i < |items| {
      SkipIffSomePatternOccurs(patterns, items[i].name);
    }
  }

  /** The empty pattern list skips every dataset. */
  lemma {:induction false} EmptyListSelectsNothing(items: seq<Item>)
    ensures Selected(WithSkip, SkipRegex([]), items) == []
    decreases |items|
  {
    if |items| > 0 {
      EmptyListSelectsNothing(items[..|items| - 1]);
      EmptyListSkipsEverything(items[|items| - 1].name);
    }
  }

  /** A list holding the empty pattern skips every dataset. */
  lemma {:induction false} EmptyPatternSelectsNothing(patterns: seq<string>, items: seq<Item>)
    requires "" in patterns
    requires forall k :: 0 <= k < |patterns| ==> '|' !in patterns[k]
    ensures Selected(WithSkip, SkipRegex(patterns), items) == []
    decreases |items|
  {
    if |items| > 0 {
      EmptyPatternSelectsNothing(patterns, items[..|items| - 1]);
      EmptyPatternSkipsEverything(patterns, items[|items| - 1].name);
    }
  }

  /** A pattern whose first character is absent from a name does not occur in it. */
  lemma AbsentFirstCharacter(p: string, s: string)
    requires |p| > 0 && p[0] !in s
    ensures !Occurs(p, s)
  {
  }

  /** The visit of a run file with a detector image and a temperature
      readout, in visiting order: the groups and the image, then the
      temperature. */
  function ExampleVisit(image: Payload, temperature: Payload): seq<Item>
  {
    ExampleGroupsAndImage(image) + [ExampleTemperature(temperature)]
  }

  function ExampleGroupsAndImage(image: Payload): seq<Item>
  {
    [Item("run", GroupNode("/run")),
     Item("run/CsPad0", GroupNode("/run/CsPad0")),
     Item("run/CsPad0/image", DatasetNode(Dataset("/run/CsPad0/image", image))),
     Item("run/meta", GroupNode("/run/meta"))]
  }

  function ExampleTemperature(temperature: Payload): Item
  {
    Item("run/meta/temperature", DatasetNode(Dataset("/run/meta/temperature", temperature)))
  }

  /** Stripped of "CsPad", only the temperature is kept. */
  lemma ExampleCsPadRun(skip: string, image: Payload, temperature: Payload)
    requires Search(skip, "run/CsPad0/image") && !Search(skip, "run/meta/temperature")
    ensures Selected(WithSkip, skip, ExampleVisit(image, temperature))
            == [Dataset("/run/meta/temperature", temperature)]
  {
    ExampleSkipsGroupsAndImage(skip, image);
    SelectedSnoc(WithSkip, skip, ExampleGroupsAndImage(image), ExampleTemperature(temperature));
  }

  /** The groups and the image contribute nothing. */
  lemma ExampleSkipsGroupsAndImage(skip: string, image: Payload)
    requires Search(skip, "run/CsPad0/image")
    ensures Selected(WithSkip, skip, ExampleGroupsAndImage(image)) == []
  {
    var init := ExampleGroupsAndImage(image);
    forall k | 0 <= k < |init| ensures !Accepts(WithSkip, skip, init[k]) {
      if k == 2 { assert init[k].name == "run/CsPad0/image"; }
    }
    NoneAccepted(WithSkip, skip, init);
  }

  /** Visiting only items the visitor refuses selects nothing. */
  lemma {:induction false} NoneAccepted(v: Visitor, skip: string, items: seq<Item>)
    requires forall k :: 0 <= k < |items| ==> !Accepts(v, skip, items[k])
    ensures Selected(v, skip, items) == []
    decreases |items|
  {
    if |items| > 0 {
      NoneAccepted(v, skip, items[..|items| - 1]);
    }
  }

  /** Visiting one more item appends at most that item's dataset. */
  lemma SelectedSnoc(v: Visitor, skip: string, init: seq<Item>, x: Item)
    ensures Selected(v, skip, init + [x])
            == Selected(v, skip, init) + (if Accepts(v, skip, x) then [x.node.dataset] else [])
  {
    assert (init + [x])[..|init|] == init;
  }

  /** The searches the example performs. */
  lemma ExampleSearches(skip: string)
    requires skip == SkipRegex(["CsPad"])
    ensures Search(skip, "run/CsPad0/image")
    ensures !Search(skip, "run/meta/temperature")
  {
    OnePatternSearch(skip, "CsPad", "run/CsPad0/image");
    OnePatternSearch(skip, "CsPad", "run/meta/temperature");
    ImageNameHasCsPad();
    TemperatureNameLacksCsPad();
  }

  /** A one-pattern skip expression matches a name iff the pattern occurs in it. */
  lemma OnePatternSearch(skip: string, pattern: string, name: string)
    requires '|' !in pattern && skip == SkipRegex([pattern])
    ensures Search(skip, name) == Occurs(pattern, name)
  {
    SplitWithoutSeparator(pattern, '|');
  }

  lemma TemperatureNameLacksCsPad()
    ensures !Occurs("CsPad", "run/meta/temperature")
  {
    AbsentFirstCharacter("CsPad", "run/meta/temperature");
  }

  lemma ImageNameHasCsPad()
    ensures Occurs("CsPad", "run/CsPad0/image")
  {
    var imageName := "run/CsPad0/image";
    assert imageName[4..9] == "CsPad";
    assert OccursAt("CsPad", imageName, 4);
  }

  /** The dataset list of lclsStrip2D.py:31-52. */
  class DatasetList {
    /** The datasets appended so far (`self.data`). */
    var data: seq<Dataset>
    /** The source of the compiled skip expression (`self.skip`). */
    var skip: string
    /** The visitor `self.addDataset` is bound to. */
    var addDataset: Visitor

    /** `__init__` for an already normalised pattern list (see
        `Patterns.SkipPatterns`): joins the patterns with "|"; as the list is
        not None, the skipping visitor is bound. */
    constructor (skipList: seq<string>)
      ensures data == [] && skip == SkipRegex(skipList) && addDataset == WithSkip
    {
      data := [];
      skip := SkipRegex(skipList);
      addDataset := WithSkip;
    }

    /** `addDatasetWithSkip`: appends the node iff it is a dataset whose
        name the skip expression does not match. */
    method AddDatasetWithSkip(name: string, node: Node)
      modifies this`data
      ensures data == old(data) + (if Accepts(WithSkip, skip, Item(name, node)) then [node.dataset] else [])
    {
      if node.DatasetNode? && !Search(skip, name) {
        data := data + [node.dataset];
      }
    }

    /** `addDatasetWithOutSkip`: appends the node iff it is a dataset. */
    method AddDatasetWithOutSkip(name: string, node: Node)
      modifies this`data
      ensures data == old(data) + (if Accepts(WithOutSkip, skip, Item(name, node)) then [node.dataset] else [])
    {
      if node.DatasetNode? {
        data := data + [node.dataset];
      }
    }

    /** `self.addDataset(name, node)`: calls the bound visitor. Earlier
        entries stay as they were and at most one is added. */
    method AddDataset(name: string, node: Node)
      modifies this`data
      ensures data == old(data) + (if Accepts(addDataset, skip, Item(name, node)) then [node.dataset] else [])
      ensures |old(data)| <= |data| <= |old(data)| + 1 && data[..|old(data)|] == old(data)
    {
      match addDataset
      case WithSkip => AddDatasetWithSkip(name, node);
      case WithOutSkip => AddDatasetWithOutSkip(name, node);
    }

    /** `clear`: empties the list. */
    method Clear()
      modifies this`data
      ensures data == []
    {
      data := [];
    }

    /** `visititems(self.addDataset)`: the traversal calls the visitor once
        per item, in order. */
    method VisitItems(items: seq<Item>)
      modifies this`data
      ensures data == old(data) + Selected(addDataset, skip, items)
    {
      var i := 0;
      while i < |items|
        invariant 0 <= i <= |items|
        invariant data == old(data) + Selected(addDataset, skip, items[..i])
      {
        AddDataset(items[i].name, items[i].node);
        assert items[..i + 1][..i] == items[..i];
        i := i + 1;
      }
      assert items[..|items|] == items;
    }
  }
}
