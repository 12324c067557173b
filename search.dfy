/** Matching nodes against a literal key or a predicate, and the first or
    all matches of a node sequence, as findOne and findMany compute them
    on the pre-order. */
module Search {
  import opened TreeNodes

  /** Either a literal key, matched by equality with the node's key, or a
      predicate on nodes. */
  datatype Matcher = Lit(key: Key) | Pred(test: TreeNode -> bool)

  predicate Matches(m: Matcher, n: TreeNode)
  {
    match m
    case Lit(k) => n.key == k
    case Pred(f) => f(n)
  }

  /** Matching by equality with `key`, written as a predicate. */
  function KeyIs(key: Key): Matcher
  {
    Pred((n: TreeNode) => n.key == key)
  }

  /** The predicate form of a key and its literal form match the same nodes. */
  lemma KeyIsLiteral(key: Key)
    ensures forall n :: Matches(KeyIs(key), n) <==> Matches(Lit(key), n)
  {
  }

  /** Position of the first node of `ns` that `m` matches, or -1. */
  function FirstIndex(m: Matcher, ns: seq<TreeNode>): (r: int)
    ensures -1 <= r < |ns|
    ensures r == -1 <==> forall i :: 0 <= i < |ns| ==> !Matches(m, ns[i])
    ensures 0 <= r ==> Matches(m, ns[r]) && forall i :: 0 <= i < r ==> !Matches(m, ns[i])
  {
    if ns == [] then -1
    else if Matches(m, ns[0]) then 0
    else
      var r := FirstIndex(m, ns[1..]);
      if r == -1 then -1 else r + 1
  }

  /** The first node of `ns` that `m` matches, or null when none does. */
  function First(m: Matcher, ns: seq<TreeNode>): (r: TreeNode?)
    ensures r == null <==> forall i :: 0 <= i < |ns| ==> !Matches(m, ns[i])
    ensures r != null ==> r in ns && Matches(m, r)
  {
    var i := FirstIndex(m, ns);
    if i == -1 then null else ns[i]
  }

  /** The nodes of `ns` that `m` matches, in their order in `ns`. */
  function Filter(m: Matcher, ns: seq<TreeNode>): seq<TreeNode>
  {
    if ns == [] then []
    else (if Matches(m, ns[0]) then [ns[0]] else []) + Filter(m, ns[1..])
  }

  /** A node that matches, with no match before it, is the first match. */
  lemma {:induction false} FirstAt(m: Matcher, ns: seq<TreeNode>, i: int)
    requires 0 <= i < |ns| && Matches(m, ns[i])
    requires forall j :: 0 <= j < i ==> !Matches(m, ns[j])
    ensures FirstIndex(m, ns) == i && First(m, ns) == ns[i]
  {
  }

  /** The first match of a concatenation is the first match of its first
      part, or, when that part has none, the first match of the second. */
  lemma {:induction false} FirstOfConcat(m: Matcher, a: seq<TreeNode>, b: seq<TreeNode>)
    ensures First(m, a + b) == if First(m, a) != null then First(m, a) else First(m, b)
  {
    var i := FirstIndex(m, a);
    if i != -1 {
      assert (a + b)[i] == a[i];
      forall j | 0 <= j < i ensures !Matches(m, (a + b)[j]) {
        assert (a + b)[j] == a[j];
      }
      FirstAt(m, a + b, i);
    } else {
      forall j | 0 <= j < |a| ensures !Matches(m, (a + b)[j]) {
        assert (a + b)[j] == a[j];
      }
      var k := FirstIndex(m, b);
      if k == -1 {
        forall j | 0 <= j < |a + b| ensures !Matches(m, (a + b)[j]) {
          if j >= |a| {
            assert (a + b)[j] == b[j - |a|];
          }
        }
      } else {
        forall j | |a| <= j < |a| + k ensures !Matches(m, (a + b)[j]) {
          assert (a + b)[j] == b[j - |a|];
        }
        assert (a + b)[|a| + k] == b[k];
        FirstAt(m, a + b, |a| + k);
      }
    }
  }

  /** When the first match of a four-part concatenation lies in none of the
      outer parts nor the second, the second part has no match and the
      third part's first match is it. */
  lemma FirstInMiddle(m: Matcher, x: seq<TreeNode>, a: seq<TreeNode>, y: seq<TreeNode>, c: seq<TreeNode>,
                      p: TreeNode)
    requires First(m, x + a + y + c) == p && p !in x && p !in a && p !in c
    ensures First(m, a) == null && First(m, y) == p
  {
    FirstOfConcat(m, x + a + y, c);
    FirstOfConcat(m, x + a, y);
    FirstOfConcat(m, x, a);
  }

  /** Two matchers that agree on every node find the same first match. */
  lemma {:induction false} FirstOfEquivalent(m1: Matcher, m2: Matcher, ns: seq<TreeNode>)
    requires forall n :: Matches(m1, n) <==> Matches(m2, n)
    ensures FirstIndex(m1, ns) == FirstIndex(m2, ns) && First(m1, ns) == First(m2, ns)
  {
    var i := FirstIndex(m1, ns);
    if i != -1 {
      FirstAt(m2, ns, i);
    }
  }

  /** Filtering distributes over concatenation, so it keeps the order of
      the filtered sequence. */
  lemma {:induction false} FilterOfConcat(m: Matcher, a: seq<TreeNode>, b: seq<TreeNode>)
    ensures Filter(m, a + b) == Filter(m, a) + Filter(m, b)
    decreases a
  {
    if a == [] {
      assert a + b == b;
    } else {
      var x := if Matches(m, a[0]) then [a[0]] else [];
      assert (a + b)[0] == a[0] && (a + b)[1..] == a[1..] + b;
      calc {
        Filter(m, a + b);
        x + Filter(m, a[1..] + b);
        { FilterOfConcat(m, a[1..], b); }
        x + (Filter(m, a[1..]) + Filter(m, b));
        (x + Filter(m, a[1..])) + Filter(m, b);
      }
    }
  }

  /** Extending a prefix by one node extends its filtered sequence by that
      node exactly when it matches. */
  lemma FilterSnoc(m: Matcher, ns: seq<TreeNode>, i: int)
    requires 0 <= i < |ns|
    ensures Filter(m, ns[..i + 1]) == Filter(m, ns[..i]) + if Matches(m, ns[i]) then [ns[i]] else []
  {
    var x := [ns[i]];
    assert ns[..i + 1] == ns[..i] + x;
    assert x[0] == ns[i] && x[1..] == [];
    FilterOfConcat(m, ns[..i], x);
  }

  /** The filtered sequence holds exactly the matching nodes of `ns`. */
  lemma {:induction false} FilterMembers(m: Matcher, ns: seq<TreeNode>)
    ensures forall n :: n in Filter(m, ns) <==> n in ns && Matches(m, n)
    decreases ns
  {
    if ns != [] {
      FilterMembers(m, ns[1..]);
      assert ns == [ns[0]] + ns[1..];
    }
  }

  /** The filtered sequence is empty exactly when there is no first match,
      and otherwise begins with the first match. */
  lemma {:induction false} FilterStartsWithFirst(m: Matcher, ns: seq<TreeNode>)
    ensures Filter(m, ns) == [] <==> First(m, ns) == null
    ensures Filter(m, ns) != [] ==> Filter(m, ns)[0] == First(m, ns)
    decreases ns
  {
    if ns != [] {
      FilterStartsWithFirst(m, ns[1..]);
      FirstOfConcat(m, [ns[0]], ns[1..]);
      assert [ns[0]] + ns[1..] == ns;
    }
  }
}
