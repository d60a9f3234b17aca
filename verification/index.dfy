/**
 * The dictionary-filling loops of the loaders: each kept element writes its
 * value under its key, so a later write to a key replaces an earlier one.
 */
module Index {

  /** The dictionary `m` after the loop has run over `xs`. */
  function Assign<T, V>(m: map<string, V>, xs: seq<T>, keep: T -> bool, key: T -> string, val: T -> V)
    : map<string, V>
    decreases |xs|
  {
    if xs == [] then m
    else
      var before := Assign(m, xs[..|xs| - 1], keep, key, val);
      var x := xs[|xs| - 1];
      if keep(x) then before[key(x) := val(x)] else before
  }

  /** Element `i` of `xs` writes key `k`. */
  predicate WritesAt<T>(xs: seq<T>, keep: T -> bool, key: T -> string, k: string, i: int) {
    0 <= i < |xs| && keep(xs[i]) && key(xs[i]) == k
  }

  /** Element `i` is the last one to write key `k`. */
  predicate LastWriteAt<T>(xs: seq<T>, keep: T -> bool, key: T -> string, k: string, i: int) {
    WritesAt(xs, keep, key, k, i) && forall j :: i < j < |xs| ==> !WritesAt(xs, keep, key, k, j)
  }

  /** The keys after the loop: those already there and every key written. */
  lemma {:induction false} AssignKeys<T, V>(m: map<string, V>, xs: seq<T>, keep: T -> bool, key: T -> string, val: T -> V, k: string)
    ensures k in Assign(m, xs, keep, key, val) <==> k in m || exists i :: WritesAt(xs, keep, key, k, i)
    decreases |xs|
  {
    if xs != [] {
      var n := |xs| - 1;
      var init := xs[..n];
      AssignKeys(m, init, keep, key, val, k);
      if exists i :: WritesAt(xs, keep, key, k, i) {
        var i :| WritesAt(xs, keep, key, k, i);
        if i < n {
          assert WritesAt(init, keep, key, k, i);
        }
      }
      if exists i :: WritesAt(init, keep, key, k, i) {
        var i :| WritesAt(init, keep, key, k, i);
        assert WritesAt(xs, keep, key, k, i);
      }
      if WritesAt(xs, keep, key, k, n) {
        assert exists i :: WritesAt(xs, keep, key, k, i);
      }
    }
  }

  /** A written key holds the value of its last write. */
  lemma {:induction false} AssignLastWrite<T, V>(m: map<string, V>, xs: seq<T>, keep: T -> bool, key: T -> string, val: T -> V, k: string, i: int)
    requires LastWriteAt(xs, keep, key, k, i)
    ensures k in Assign(m, xs, keep, key, val) && Assign(m, xs, keep, key, val)[k] == val(xs[i])
    decreases |xs|
  {
    var n := |xs| - 1;
    if i < n {
      var init := xs[..n];
      assert !WritesAt(xs, keep, key, k, n);
      assert LastWriteAt(init, keep, key, k, i) by {
        forall j | i < j < n ensures !WritesAt(init, keep, key, k, j) {
          assert !WritesAt(xs, keep, key, k, j);
        }
      }
      AssignLastWrite(m, init, keep, key, val, k, i);
    }
  }

  /** A key nobody writes keeps its old value. */
  lemma {:induction false} AssignUntouched<T, V>(m: map<string, V>, xs: seq<T>, keep: T -> bool, key: T -> string, val: T -> V, k: string)
    requires k in m
    requires forall i :: !WritesAt(xs, keep, key, k, i)
    ensures k in Assign(m, xs, keep, key, val) && Assign(m, xs, keep, key, val)[k] == m[k]
    decreases |xs|
  {
    if xs != [] {
      var n := |xs| - 1;
      assert !WritesAt(xs, keep, key, k, n);
      forall i ensures !WritesAt(xs[..n], keep, key, k, i) {
        assert !WritesAt(xs, keep, key, k, i);
      }
      AssignUntouched(m, xs[..n], keep, key, val, k);
    }
  }

  /** Running the loop over `a + b` is running it over `a`, then over `b`. */
  lemma {:induction false} AssignAppend<T, V>(m: map<string, V>, a: seq<T>, b: seq<T>, keep: T -> bool, key: T -> string, val: T -> V)
    ensures Assign(m, a + b, keep, key, val) == Assign(Assign(m, a, keep, key, val), b, keep, key, val)
    decreases |b|
  {
    if b == [] {
      assert a + b == a;
    } else {
      var n := |b| - 1;
      assert (a + b)[..|a + b| - 1] == a + b[..n];
      assert (a + b)[|a + b| - 1] == b[n];
      AssignAppend(m, a, b[..n], keep, key, val);
    }
  }

  /** The dictionary the loop builds from empty. */
  function IndexBy<T, V>(xs: seq<T>, keep: T -> bool, key: T -> string, val: T -> V): (m: map<string, V>)
    ensures forall k :: k in m <==> exists i :: WritesAt(xs, keep, key, k, i)
    ensures forall k, i :: LastWriteAt(xs, keep, key, k, i) ==> k in m && m[k] == val(xs[i])
  {
    var m := Assign(map[], xs, keep, key, val);
    assert forall k :: k in m <==> exists i :: WritesAt(xs, keep, key, k, i) by {
      forall k ensures k in m <==> exists i :: WritesAt(xs, keep, key, k, i) {
        AssignKeys(map[], xs, keep, key, val, k);
      }
    }
    assert forall k, i :: LastWriteAt(xs, keep, key, k, i) ==> k in m && m[k] == val(xs[i]) by {
      forall k, i | LastWriteAt(xs, keep, key, k, i) ensures k in m && m[k] == val(xs[i]) {
        AssignLastWrite(map[], xs, keep, key, val, k, i);
      }
    }
    m
  }

  /** Every key present has a last write, and its value comes from that write. */
  lemma LastWriteExists<T>(xs: seq<T>, keep: T -> bool, key: T -> string, k: string, i: int)
    requires WritesAt(xs, keep, key, k, i)
    ensures exists j :: LastWriteAt(xs, keep, key, k, j)
    decreases |xs| - i
  {
    if !LastWriteAt(xs, keep, key, k, i) {
      var j :| i < j < |xs| && WritesAt(xs, keep, key, k, j);
      LastWriteExists(xs, keep, key, k, j);
    }
  }

  /** A property every written value has holds of every value in the dictionary. */
  lemma IndexValues<T, V>(xs: seq<T>, keep: T -> bool, key: T -> string, val: T -> V, ok: V -> bool)
    requires forall x :: x in xs && keep(x) ==> ok(val(x))
    ensures forall k :: k in IndexBy(xs, keep, key, val) ==> ok(IndexBy(xs, keep, key, val)[k])
  {
    var m := IndexBy(xs, keep, key, val);
    forall k | k in m ensures ok(m[k]) {
      var i :| WritesAt(xs, keep, key, k, i);
      LastWriteExists(xs, keep, key, k, i);
      var j :| LastWriteAt(xs, keep, key, k, j);
      assert xs[j] in xs;
    }
  }
}
