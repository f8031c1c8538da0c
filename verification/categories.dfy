/** The pure part of `show`: grouping metric names into plot rows by the
    text before their first '/', and the size of the subplot grid. */
module Categories {
  import opened Wrappers
  import opened Seqs

  /** The row of metrics whose name has no '/'. */
  const NoCategory: string := "no_category"

  /** The text before the first '/' of `key`, or all of `key` when it has
      none, as `key.split('/', 1)[0]` gives. */
  function BeforeSlash(key: string): (p: string)
    ensures p <= key
    ensures '/' !in p
    ensures |p| < |key| ==> key[|p|] == '/'
  {
    if |key| == 0 || key[0] == '/' then [] else [key[0]] + BeforeSlash(key[1..])
  }

  /** The text before the first '/' does not depend on what follows it. */
  lemma {:induction false} BeforeSlashOf(p: string, rest: string)
    requires '/' !in p
    ensures BeforeSlash(p + "/" + rest) == p
  {
    if |p| > 0 {
      assert (p + "/" + rest)[1..] == p[1..] + "/" + rest;
      BeforeSlashOf(p[1..], rest);
    }
  }

  /** The plot row of a metric: the text before the first '/' of its name,
      or "no_category" when the name holds no '/'. */
  function Category(key: string): (c: string)
    ensures '/' in key ==> c < key && '/' !in c && key[|c|] == '/'
    ensures '/' !in key ==> c == NoCategory
  {
    if '/' in key then BeforeSlash(key) else NoCategory
  }

  /** The `categories` dict of `show`: category name to the metric names
      in it, in the order the categories first appear. */
  type Groups = seq<(string, seq<string>)>

  function Names(g: Groups): (ns: seq<string>)
    ensures |ns| == |g|
    ensures forall i :: 0 <= i < |g| ==> ns[i] == g[i].0
  {
    seq(|g|, i requires 0 <= i < |g| => g[i].0)
  }

  /** Reference definition: the names in `keys` whose category is `c`, in
      their order in `keys`. */
  function Members(keys: seq<string>, c: string): seq<string> {
    if |keys| == 0 then []
    else
      var last := keys[|keys| - 1];
      Members(keys[..|keys| - 1], c) + (if Category(last) == c then [last] else [])
  }

  lemma {:induction false} MembersSpec(keys: seq<string>, c: string)
    ensures forall k :: k in Members(keys, c) <==> k in keys && Category(k) == c
  {
    if |keys| > 0 {
      var init := keys[..|keys| - 1];
      MembersSpec(init, c);
      assert keys == init + [keys[|keys| - 1]];
    }
  }

  /** Reference definition: the distinct categories of `keys`, in the order
      of their first appearance. */
  function CategoriesOf(keys: seq<string>): (cs: seq<string>)
    ensures Distinct(cs)
  {
    if |keys| == 0 then []
    else
      var last := keys[|keys| - 1];
      var prev := CategoriesOf(keys[..|keys| - 1]);
      if Category(last) in prev then prev
      else
        DistinctAppend(prev, Category(last));
        prev + [Category(last)]
  }

  lemma {:induction false} CategoriesSpec(keys: seq<string>)
    ensures forall c :: c in CategoriesOf(keys) <==> exists k :: k in keys && Category(k) == c
  {
    if |keys| > 0 {
      var init := keys[..|keys| - 1];
      CategoriesSpec(init);
      assert keys == init + [keys[|keys| - 1]];
    }
  }

  /** A category that no key has has no members. */
  lemma {:induction false} NoMembers(keys: seq<string>, c: string)
    ensures c !in CategoriesOf(keys) ==> Members(keys, c) == []
  {
    if |keys| > 0 {
      NoMembers(keys[..|keys| - 1], c);
    }
  }

  /** `categories[category].append(key)`, creating the entry at the end
      when it is new. */
  function AddKey(g: Groups, c: string, key: string): (r: Groups)
    ensures Names(r) == if c in Names(g) then Names(g) else Names(g) + [c]
    ensures forall i :: 0 <= i < |g| ==> r[i] == if g[i].0 == c then (c, g[i].1 + [key]) else g[i]
    ensures c !in Names(g) ==> r[|g|] == (c, [key])
  {
    if c in Names(g) then
      seq(|g|, i requires 0 <= i < |g| => if g[i].0 == c then (c, g[i].1 + [key]) else g[i])
    else
      g + [(c, [key])]
  }

  /** The grouping loop of `show`: one group per category, in order of
      first appearance. */
  function Group(keys: seq<string>): (g: Groups)
    ensures Names(g) == CategoriesOf(keys)
  {
    if |keys| == 0 then []
    else
      var last := keys[|keys| - 1];
      AddKey(Group(keys[..|keys| - 1]), Category(last), last)
  }

  /** Grouping one more key adds it to its category's group, or opens a
      new group at the end. */
  lemma GroupAppend(keys: seq<string>, key: string)
    ensures Group(keys + [key]) == AddKey(Group(keys), Category(key), key)
  {
    assert (keys + [key])[..|keys|] == keys;
  }

  /** Each group holds exactly the metrics of its category, in insertion
      order. */
  lemma {:induction false} GroupHoldsMembers(keys: seq<string>)
    ensures forall i :: 0 <= i < |Group(keys)| ==> Group(keys)[i].1 == Members(keys, Group(keys)[i].0)
  {
    if |keys| > 0 {
      var init := keys[..|keys| - 1];
      var last := keys[|keys| - 1];
      var c := Category(last);
      var prev := Group(init);
      GroupHoldsMembers(init);
      NoMembers(init, c);
      var g := Group(keys);
      assert g == AddKey(prev, c, last);
      forall i | 0 <= i < |g|
        ensures g[i].1 == Members(keys, g[i].0)
      {
        var x := g[i].0;
        assert Members(keys, x) == Members(init, x) + (if c == x then [last] else []);
        if i < |prev| {
          assert g[i] == if prev[i].0 == c then (c, prev[i].1 + [last]) else prev[i];
        } else {
          assert c !in Names(prev);
          assert g[i] == (c, [last]);
        }
      }
    }
  }

  /** Every metric sits in exactly one group, the one named by its
      category; the groups hold nothing else and none is empty. */
  lemma GroupsPartitionKeys(keys: seq<string>)
    ensures var g := Group(keys);
      && Distinct(Names(g))
      && (forall k :: k in keys ==> exists i :: 0 <= i < |g| && g[i].0 == Category(k) && k in g[i].1)
      && (forall i, k :: 0 <= i < |g| && k in g[i].1 ==> k in keys && Category(k) == g[i].0)
      && (forall i :: 0 <= i < |g| ==> |g[i].1| > 0)
  {
    var g := Group(keys);
    CategoriesSpec(keys);
    GroupHoldsMembers(keys);
    forall i | 0 <= i < |g|
      ensures forall k :: k in g[i].1 <==> k in keys && Category(k) == g[i].0
    {
      MembersSpec(keys, g[i].0);
    }
    forall k | k in keys
      ensures exists i :: 0 <= i < |g| && g[i].0 == Category(k) && k in g[i].1
    {
      assert Category(k) in Names(g);
      var i :| 0 <= i < |g| && Names(g)[i] == Category(k);
      assert k in g[i].1;
    }
    forall i | 0 <= i < |g|
      ensures |g[i].1| > 0
    {
      assert g[i].0 in CategoriesOf(keys) by {
        assert Names(g)[i] == g[i].0;
      }
      var k :| k in keys && Category(k) == g[i].0;
      assert k in g[i].1;
    }
  }

  /** The widest group: `max(len(keys) for keys in categories.values())`. */
  function MaxWidth(g: Groups): (w: nat)
    ensures forall i :: 0 <= i < |g| ==> |g[i].1| <= w
    ensures |g| > 0 ==> exists i :: 0 <= i < |g| && |g[i].1| == w
  {
    if |g| == 0 then 0 else Max(|g[0].1|, MaxWidth(g[1..]))
  }

  /** `(num_rows, max_num_cols)` of the subplot grid: one row per category,
      as many columns as the widest one, so every metric's subplot fits.
      An empty store has no categories and the maximum raises. */
  function GridShape(g: Groups): (r: Result<(nat, nat), Error>)
    ensures r.Failure? <==> |g| == 0
    ensures r.Success? ==> r.value.0 == |g|
    ensures r.Success? ==> forall i :: 0 <= i < |g| ==> |g[i].1| <= r.value.1
    ensures r.Success? ==> exists i :: 0 <= i < |g| && |g[i].1| == r.value.1
  {
    if |g| == 0 then Failure(MaxOfEmpty) else Success((|g|, MaxWidth(g)))
  }
}
