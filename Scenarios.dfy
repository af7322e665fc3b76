/** The dictionary's unit tests (dict_test.cpp) as verified client code.

    Each test is a method over symbolic keys that returns what the test
    observes (the results of `exists` or `height`, in order), and the
    ensures states the values the test expects. The keys only need to be in
    the same relative order as the test's; a parameterless method then calls
    the scenario with the test's own keys. The lemmas compute, step by step, the tree
    shapes the height test passes through. */
module Scenarios {
  import opened TreeModel
  import opened Balancing
  import opened TreeOps
  import opened Dictionaries
  import opened SmallTrees

  lemma Step3<V>(b: int, vb: V, c: int, vc: V, f: int, vf: V)
    requires b < c < f
    ensures IsAvl(Node(b, vb, Leaf, NewNode(c, vc), 1, 1)) && f !in Bindings(Node(b, vb, Leaf, NewNode(c, vc), 1, 1))
    ensures InsertNode(f, vf, Node(b, vb, Leaf, NewNode(c, vc), 1, 1)) == Node(c, vc, NewNode(b, vb), NewNode(f, vf), 1, 0)
  {
    var t := Node(b, vb, Leaf, NewNode(c, vc), 1, 1);
    InsertRightOfSingle(c, vc, f, vf);
    var u := UpdateNode(t.(right := Node(c, vc, Leaf, NewNode(f, vf), 1, 1)));
    assert u == Node(b, vb, Leaf, Node(c, vc, Leaf, NewNode(f, vf), 1, 1), 2, 2);
    assert RotateLeft(u) == Node(c, vc, NewNode(b, vb), NewNode(f, vf), 1, 0);
  }

  lemma Step4<V>(b: int, vb: V, c: int, vc: V, d: int, vd: V, f: int, vf: V)
    requires b < c < d < f
    ensures IsAvl(Node(c, vc, NewNode(b, vb), NewNode(f, vf), 1, 0)) && d !in Bindings(Node(c, vc, NewNode(b, vb), NewNode(f, vf), 1, 0))
    ensures InsertNode(d, vd, Node(c, vc, NewNode(b, vb), NewNode(f, vf), 1, 0))
         == Node(c, vc, NewNode(b, vb), Node(f, vf, NewNode(d, vd), Leaf, 1, -1), 2, 1)
  {
    var t := Node(c, vc, NewNode(b, vb), NewNode(f, vf), 1, 0);
    InsertLeftOfSingle(f, vf, d, vd);
    assert UpdateNode(t.(right := Node(f, vf, NewNode(d, vd), Leaf, 1, -1)))
        == Node(c, vc, NewNode(b, vb), Node(f, vf, NewNode(d, vd), Leaf, 1, -1), 2, 1);
  }

  lemma Step5<V>(b: int, vb: V, c: int, vc: V, d: int, vd: V, f: int, vf: V)
    requires b < c < d < f
    ensures IsAvl(Node(c, vc, NewNode(b, vb), Node(f, vf, NewNode(d, vd), Leaf, 1, -1), 2, 1)) && d in Bindings(Node(c, vc, NewNode(b, vb), Node(f, vf, NewNode(d, vd), Leaf, 1, -1), 2, 1))
    ensures RemoveNode(d, Node(c, vc, NewNode(b, vb), Node(f, vf, NewNode(d, vd), Leaf, 1, -1), 2, 1))
         == Node(c, vc, NewNode(b, vb), NewNode(f, vf), 1, 0)
  {
    Step4(b, vb, c, vc, d, vd, f, vf);
    var t := Node(c, vc, NewNode(b, vb), Node(f, vf, NewNode(d, vd), Leaf, 1, -1), 2, 1);
    var fd := Node(f, vf, NewNode(d, vd), Leaf, 1, -1);
    assert RemoveNode(d, NewNode(d, vd)) == Leaf;
    assert UpdateNode(fd.(left := Leaf)) == NewNode(f, vf);
    assert RemoveNode(d, fd) == NewNode(f, vf);
    assert UpdateNode(t.(right := NewNode(f, vf))) == Node(c, vc, NewNode(b, vb), NewNode(f, vf), 1, 0);
  }

  lemma Step6<V>(b: int, vb: V, c: int, vc: V, f: int, vf: V, h: int, vh: V)
    requires b < c < f < h
    ensures IsAvl(Node(c, vc, NewNode(b, vb), NewNode(f, vf), 1, 0)) && h !in Bindings(Node(c, vc, NewNode(b, vb), NewNode(f, vf), 1, 0))
    ensures InsertNode(h, vh, Node(c, vc, NewNode(b, vb), NewNode(f, vf), 1, 0))
         == Node(c, vc, NewNode(b, vb), Node(f, vf, Leaf, NewNode(h, vh), 1, 1), 2, 1)
  {
    var t := Node(c, vc, NewNode(b, vb), NewNode(f, vf), 1, 0);
    InsertRightOfSingle(f, vf, h, vh);
    assert UpdateNode(t.(right := Node(f, vf, Leaf, NewNode(h, vh), 1, 1)))
        == Node(c, vc, NewNode(b, vb), Node(f, vf, Leaf, NewNode(h, vh), 1, 1), 2, 1);
  }

  lemma Step7<V>(b: int, vb: V, c: int, vc: V, e: int, ve: V, f: int, vf: V, h: int, vh: V)
    requires b < c < e < f < h
    ensures IsAvl(Node(c, vc, NewNode(b, vb), Node(f, vf, Leaf, NewNode(h, vh), 1, 1), 2, 1)) && e !in Bindings(Node(c, vc, NewNode(b, vb), Node(f, vf, Leaf, NewNode(h, vh), 1, 1), 2, 1))
    ensures InsertNode(e, ve, Node(c, vc, NewNode(b, vb), Node(f, vf, Leaf, NewNode(h, vh), 1, 1), 2, 1))
         == Node(c, vc, NewNode(b, vb), Node(f, vf, NewNode(e, ve), NewNode(h, vh), 1, 0), 2, 1)
  {
    Step6(b, vb, c, vc, f, vf, h, vh);
    var t := Node(c, vc, NewNode(b, vb), Node(f, vf, Leaf, NewNode(h, vh), 1, 1), 2, 1);
    var fh := t.right;
    assert InsertNode(e, ve, Leaf) == NewNode(e, ve);
    assert UpdateNode(fh.(left := NewNode(e, ve))) == Node(f, vf, NewNode(e, ve), NewNode(h, vh), 1, 0);
    assert InsertNode(e, ve, fh) == Node(f, vf, NewNode(e, ve), NewNode(h, vh), 1, 0);
    assert UpdateNode(t.(right := Node(f, vf, NewNode(e, ve), NewNode(h, vh), 1, 0)))
        == Node(c, vc, NewNode(b, vb), Node(f, vf, NewNode(e, ve), NewNode(h, vh), 1, 0), 2, 1);
  }

  lemma Step8<V>(b: int, vb: V, c: int, vc: V, e: int, ve: V, f: int, vf: V, g: int, vg: V, h: int, vh: V)
    requires b < c < e < f < g < h
    ensures IsAvl(Node(c, vc, NewNode(b, vb), Node(f, vf, NewNode(e, ve), NewNode(h, vh), 1, 0), 2, 1)) && g !in Bindings(Node(c, vc, NewNode(b, vb), Node(f, vf, NewNode(e, ve), NewNode(h, vh), 1, 0), 2, 1))
    ensures InsertNode(g, vg, Node(c, vc, NewNode(b, vb), Node(f, vf, NewNode(e, ve), NewNode(h, vh), 1, 0), 2, 1))
         == Node(f, vf, Node(c, vc, NewNode(b, vb), NewNode(e, ve), 1, 0), Node(h, vh, NewNode(g, vg), Leaf, 1, -1), 2, 0)
  {
    Step7(b, vb, c, vc, e, ve, f, vf, h, vh);
    var t := Node(c, vc, NewNode(b, vb), Node(f, vf, NewNode(e, ve), NewNode(h, vh), 1, 0), 2, 1);
    var fr := t.right;
    InsertLeftOfSingle(h, vh, g, vg);
    var nf := Node(f, vf, NewNode(e, ve), Node(h, vh, NewNode(g, vg), Leaf, 1, -1), 2, 1);
    assert UpdateNode(fr.(right := Node(h, vh, NewNode(g, vg), Leaf, 1, -1))) == nf;
    assert InsertNode(g, vg, fr) == nf;
    var u := UpdateNode(t.(right := nf));
    assert u == Node(c, vc, NewNode(b, vb), nf, 3, 2);
    assert RotateLeft(u) == Node(f, vf, Node(c, vc, NewNode(b, vb), NewNode(e, ve), 1, 0), Node(h, vh, NewNode(g, vg), Leaf, 1, -1), 2, 0);
  }

  lemma Step9<V>(a: int, va: V, b: int, vb: V, c: int, vc: V, e: int, ve: V, f: int, vf: V, g: int, vg: V, h: int, vh: V)
    requires a < b < c < e < f < g < h
    ensures IsAvl(Node(f, vf, Node(c, vc, NewNode(b, vb), NewNode(e, ve), 1, 0), Node(h, vh, NewNode(g, vg), Leaf, 1, -1), 2, 0)) && a !in Bindings(Node(f, vf, Node(c, vc, NewNode(b, vb), NewNode(e, ve), 1, 0), Node(h, vh, NewNode(g, vg), Leaf, 1, -1), 2, 0))
    ensures InsertNode(a, va, Node(f, vf, Node(c, vc, NewNode(b, vb), NewNode(e, ve), 1, 0), Node(h, vh, NewNode(g, vg), Leaf, 1, -1), 2, 0))
         == Node(f, vf, Node(c, vc, Node(b, vb, NewNode(a, va), Leaf, 1, -1), NewNode(e, ve), 2, -1),
                 Node(h, vh, NewNode(g, vg), Leaf, 1, -1), 3, -1)
  {
    Step8(b, vb, c, vc, e, ve, f, vf, g, vg, h, vh);
    var t := Node(f, vf, Node(c, vc, NewNode(b, vb), NewNode(e, ve), 1, 0), Node(h, vh, NewNode(g, vg), Leaf, 1, -1), 2, 0);
    InsertBelowBalancedPair(a, va, b, vb, c, vc, e, ve);
    var nc := Node(c, vc, Node(b, vb, NewNode(a, va), Leaf, 1, -1), NewNode(e, ve), 2, -1);
    assert UpdateNode(t.(left := nc)) == Node(f, vf, nc, t.right, 3, -1);
  }

  /** The fixture's `insert_samples` on a fresh dictionary: keys b, c, f, d
      (2, 3, 44, 12 in the test) inserted in that order. */
  method InsertSamples(dict: Dictionary<int>, b: int, c: int, d: int, f: int)
    requires b < c < d < f
    requires dict.Valid() && dict.root == Leaf
    modifies dict
    ensures dict.Valid() && dict.Contents() == map[b := 99, c := 4, f := 3, d := 6]
    ensures dict.root == Node(c, 4, NewNode(b, 99), Node(f, 3, NewNode(d, 6), Leaf, 1, -1), 2, 1)
  {
    dict.Insert(b, 99);
    assert dict.root == NewNode(b, 99);
    InsertRightOfSingle(b, 99, c, 4);
    dict.Insert(c, 4);
    assert dict.root == Node(b, 99, Leaf, NewNode(c, 4), 1, 1);
    Step3(b, 99, c, 4, f, 3);
    dict.Insert(f, 3);
    assert dict.root == Node(c, 4, NewNode(b, 99), NewNode(f, 3), 1, 0);
    Step4(b, 99, c, 4, d, 6, f, 3);
    dict.Insert(d, 6);
  }

  /** exist_test: after inserting k alone, k exists and three other keys do not. */
  method ExistScenario(k: int, x: int, y: int, z: int) returns (observed: seq<bool>)
    requires x != k && y != k && z != k
    ensures observed == [true, false, false, false]
  {
    var dict := new Dictionary<int>();
    dict.Insert(k, 2);
    var a := dict.Exists(k);
    var b := dict.Exists(x);
    var c := dict.Exists(y);
    var e := dict.Exists(z);
    observed := [a, b, c, e];
  }

  method ExistTest() returns (observed: seq<bool>)
    ensures observed == [true, false, false, false]
  {
    observed := ExistScenario(33, 666, 836, -2);
  }

  /** insertion_test: the four sample keys exist, two other keys do not. */
  method InsertionScenario(b: int, c: int, d: int, f: int, x: int, y: int) returns (observed: seq<bool>)
    requires b < c < d < f
    requires x !in {b, c, d, f} && y !in {b, c, d, f}
    ensures observed == [true, true, true, true, false, false]
  {
    var dict := new Dictionary<int>();
    InsertSamples(dict, b, c, d, f);
    var r1 := dict.Exists(f);
    var r2 := dict.Exists(b);
    var r3 := dict.Exists(d);
    var r4 := dict.Exists(c);
    var r5 := dict.Exists(x);
    var r6 := dict.Exists(y);
    observed := [r1, r2, r3, r4, r5, r6];
  }

  method InsertionTest() returns (observed: seq<bool>)
    ensures observed == [true, true, true, true, false, false]
  {
    observed := InsertionScenario(2, 3, 12, 44, 666, -2);
  }

  /** removal_test: each removed sample key existed before and is gone after;
      removing an absent key leaves it absent. Only d (12) remains. */
  method RemovalScenario(b: int, c: int, d: int, f: int, x: int) returns (observed: seq<bool>)
    requires b < c < d < f
    requires x !in {b, c, d, f}
    ensures observed == [true, false, true, false, true, false, false, false]
  {
    var dict := new Dictionary<int>();
    InsertSamples(dict, b, c, d, f);
    var r1 := dict.Exists(f);
    dict.Remove(f);
    var r2 := dict.Exists(f);
    var r3 := dict.Exists(b);
    dict.Remove(b);
    var r4 := dict.Exists(b);
    var r5 := dict.Exists(c);
    dict.Remove(c);
    var r6 := dict.Exists(c);
    var r7 := dict.Exists(x);
    dict.Remove(x);
    var r8 := dict.Exists(x);
    observed := [r1, r2, r3, r4, r5, r6, r7, r8];
  }

  method RemovalTest() returns (observed: seq<bool>)
    ensures observed == [true, false, true, false, true, false, false, false]
  {
    observed := RemovalScenario(2, 3, 12, 44, 666);
  }

  /** clear_test: the four sample keys exist before `clear` and none after. */
  method ClearScenario(b: int, c: int, d: int, f: int) returns (observed: seq<bool>)
    requires b < c < d < f
    ensures observed == [true, true, true, true, false, false, false, false]
  {
    var dict := new Dictionary<int>();
    InsertSamples(dict, b, c, d, f);
    var r1 := dict.Exists(f);
    var r2 := dict.Exists(b);
    var r3 := dict.Exists(d);
    var r4 := dict.Exists(c);
    dict.Clear();
    var r5 := dict.Exists(f);
    var r6 := dict.Exists(b);
    var r7 := dict.Exists(d);
    var r8 := dict.Exists(c);
    observed := [r1, r2, r3, r4, r5, r6, r7, r8];
  }

  method ClearTest() returns (observed: seq<bool>)
    ensures observed == [true, true, true, true, false, false, false, false]
  {
    observed := ClearScenario(2, 3, 12, 44);
  }

  /** equality_test: after `obj2 = obj` the second dictionary holds the four
      sample keys too. */
  method EqualityScenario(b: int, c: int, d: int, f: int) returns (observed: seq<bool>)
    requires b < c < d < f
    ensures observed == [true, true, true, true, true, true, true, true]
  {
    var dict := new Dictionary<int>();
    InsertSamples(dict, b, c, d, f);
    var r1 := dict.Exists(f);
    var r2 := dict.Exists(b);
    var r3 := dict.Exists(d);
    var r4 := dict.Exists(c);
    var dict2 := new Dictionary<int>();
    dict2.Assign(dict);
    var r5 := dict2.Exists(f);
    var r6 := dict2.Exists(b);
    var r7 := dict2.Exists(d);
    var r8 := dict2.Exists(c);
    observed := [r1, r2, r3, r4, r5, r6, r7, r8];
  }

  method EqualityTest() returns (observed: seq<bool>)
    ensures observed == [true, true, true, true, true, true, true, true]
  {
    observed := EqualityScenario(2, 3, 12, 44);
  }

  /** Assigning a dictionary to itself (`obj = obj`) empties it: the clear
      runs before the copy reads the root. */
  method SelfAssignmentScenario(b: int, c: int, d: int, f: int) returns (observed: seq<bool>)
    requires b < c < d < f
    ensures observed == [false, false, false, false]
  {
    var dict := new Dictionary<int>();
    InsertSamples(dict, b, c, d, f);
    dict.Assign(dict);
    var r1 := dict.Exists(f);
    var r2 := dict.Exists(b);
    var r3 := dict.Exists(d);
    var r4 := dict.Exists(c);
    observed := [r1, r2, r3, r4];
  }

  /** height_test: heights 3, 2, 4 and 0 along the test's sequence, for any
      keys a < b < c < d < e < f < g < h (-2, 2, 3, 12, 32, 44, 55, 666 in
      the test). */
  method HeightScenario(a: int, b: int, c: int, d: int, e: int, f: int, g: int, h: int)
    returns (observed: seq<nat>)
    requires a < b < c < d < e < f < g < h
    ensures observed == [3, 2, 4, 0]
  {
    var dict := new Dictionary<int>();
    InsertSamples(dict, b, c, d, f);
    var h1 := dict.Height();
    var rest := HeightScenarioTail(dict, a, b, c, d, e, f, g, h);
    observed := [h1] + rest;
  }

  /** The height test from `remove(12)` on, started from the sample tree. */
  method HeightScenarioTail(dict: Dictionary<int>, a: int, b: int, c: int, d: int, e: int, f: int, g: int, h: int)
    returns (observed: seq<nat>)
    requires a < b < c < d < e < f < g < h
    requires dict.Valid() && dict.root == Node(c, 4, NewNode(b, 99), Node(f, 3, NewNode(d, 6), Leaf, 1, -1), 2, 1)
    modifies dict
    ensures observed == [2, 4, 0]
  {
    Step5(b, 99, c, 4, d, 6, f, 3);
    dict.Remove(d);
    assert dict.root == Node(c, 4, NewNode(b, 99), NewNode(f, 3), 1, 0);
    var h2 := dict.Height();
    Step6(b, 99, c, 4, f, 3, h, 66);
    dict.Insert(h, 66);
    assert dict.root == Node(c, 4, NewNode(b, 99), Node(f, 3, Leaf, NewNode(h, 66), 1, 1), 2, 1);
    Step7(b, 99, c, 4, e, 102, f, 3, h, 66);
    dict.Insert(e, 102);
    Step8(b, 99, c, 4, e, 102, f, 3, g, 3, h, 66);
    dict.Insert(g, 3);
    Step9(a, 8, b, 99, c, 4, e, 102, f, 3, g, 3, h, 66);
    dict.Insert(a, 8);
    var h3 := dict.Height();
    dict.Clear();
    var h4 := dict.Height();
    observed := [h2, h3, h4];
  }

  method HeightTest() returns (observed: seq<nat>)
    ensures observed == [3, 2, 4, 0]
  {
    observed := HeightScenario(-2, 2, 3, 12, 32, 44, 55, 666);
  }
}
