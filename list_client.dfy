/** Callers of the list: the behaviour its test suite checks, derived from
    the contracts of `CircularList.List` alone. */
module ListClient {
  import opened Wrappers
  import opened CircularList

  /** `pop` right after `push(v)` returns `v` and restores the list. */
  method PushThenPop<T>(l: List<T>, v: T) returns (r: Option<T>)
    requires l.Valid()
    modifies l.Repr
    ensures l.Valid()
    ensures r == Some(v)
    ensures l.contents == old(l.contents) && l.size == old(l.size)
  {
    l.Push(v);
    r := l.Pop();
  }

  /** A list built from no entries is empty: size 0, no values, and both
      `pop` and `peek` answer `None`. */
  method EmptyScenario()
  {
    var empty := new List<string>(None);
    var vs := empty.Values();
    assert empty.Size() == 0 && vs == [];
    var r := empty.Pop();
    assert r == None;
    r := empty.Peek();
    assert r == None;
  }

  /** Construction keeps the entries' order, and `peek` reads the first
      entry without removing it. */
  method OrderScenario()
  {
    var l := new List(Some(["a", "b", "c"]));
    var vs := l.Values();
    assert vs == ["a", "b", "c"] && l.Size() == 3;
    var r := l.Peek();
    assert r == Some("a");
    vs := l.Values();
    assert vs == ["a", "b", "c"];
  }

  /** `push` adds at the head and `pop` takes it back. */
  method HeadScenario()
  {
    var l := new List(Some(["a", "b", "c"]));
    l.Push("x");
    var vs := l.Values();
    assert vs == ["x", "a", "b", "c"] && l.Size() == 4;
    var r := l.Pop();
    assert r == Some("x");
    vs := l.Values();
    assert vs == ["a", "b", "c"] && l.Size() == 3;
  }

  /** `clear` empties a list, whatever it held. */
  method ClearScenario()
  {
    var l := new List(Some(["a", "b", "c"]));
    l.Clear();
    var vs := l.Values();
    assert vs == [] && l.Size() == 0;
  }

  /** `entities` pairs each value with itself, newest push first. */
  method EntitiesScenario()
  {
    var l := new List<string>(None);
    l.Push("v1");
    l.Push("v2");
    l.Push("v3");
    var es := l.Entities();
    assert es == [("v3", "v3"), ("v2", "v2"), ("v1", "v1")];
  }

  /** Three pushes on an empty list are read back newest first. */
  method PushOrderScenario()
  {
    var stack := new List<string>(None);
    stack.Push("v1");
    stack.Push("v2");
    stack.Push("v3");
    var ks := stack.Keys();
    assert ks == ["v3", "v2", "v1"];
    var trace := stack.ForEach((v: string, k: string) => v);
    assert trace == ["v3", "v2", "v1"];
  }
}
