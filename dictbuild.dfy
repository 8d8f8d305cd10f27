/**
 * A Python dict filled by a loop that runs `d[key] = value` for some of the
 * items it visits. Each visited item contributes an optional assignment;
 * later assignments to a key overwrite earlier ones.
 */
module DictBuild {
  import opened Wrappers

  type Assignment = Option<(string, string)>

  /** The dict after running the assignments in order, starting from `{}`. */
  function Assign(steps: seq<Assignment>): map<string, string>
  {
    if steps == [] then map[]
    else
      var before := Assign(steps[..|steps| - 1]);
      match steps[|steps| - 1]
      case None => before
      case Some((k, v)) => before[k := v]
  }

  /** Step `i` writes key `k`. */
  predicate Writes(steps: seq<Assignment>, i: int, k: string)
  {
    0 <= i < |steps| && steps[i].Some? && steps[i].value.0 == k
  }

  /** Step `i` writes a key that no later step writes again. */
  predicate IsLastWrite(steps: seq<Assignment>, i: int)
  {
    && 0 <= i < |steps| && steps[i].Some?
    && forall j | i < j < |steps| :: !Writes(steps, j, steps[i].value.0)
  }

  /** The keys of the dict are exactly the keys some step writes. */
  lemma {:induction false} AssignKeys(steps: seq<Assignment>)
    ensures forall k :: k in Assign(steps) <==> exists i :: Writes(steps, i, k)
  {
    if steps != [] {
      var n := |steps| - 1;
      var init := steps[..n];
      AssignKeys(init);
      assert Assign(init).Keys <= Assign(steps).Keys;
      forall k ensures k in Assign(steps) <==> exists i :: Writes(steps, i, k) {
        if k in Assign(steps) {
          if !Writes(steps, n, k) {
            assert k in Assign(init);
            var i :| Writes(init, i, k);
            assert Writes(steps, i, k);
          }
        } else {
          forall i | 0 <= i < |steps| ensures !Writes(steps, i, k) {
            if i < n {
              assert !Writes(init, i, k);
            }
          }
        }
      }
    }
  }

  /** Each key holds the value of the last step that writes it. */
  lemma {:induction false} AssignLastWins(steps: seq<Assignment>, i: int)
    requires IsLastWrite(steps, i)
    ensures steps[i].value.0 in Assign(steps)
    ensures Assign(steps)[steps[i].value.0] == steps[i].value.1
  {
    var n := |steps| - 1;
    var init := steps[..n];
    if i < n {
      var k := steps[i].value.0;
      assert !Writes(steps, n, k);
      assert IsLastWrite(init, i) by {
        forall j | i < j < n ensures !Writes(init, j, k) {
          assert !Writes(steps, j, k);
        }
      }
      AssignLastWins(init, i);
    }
  }

  /** Appending one step updates the dict by that step alone. */
  lemma AssignSnoc(steps: seq<Assignment>, last: Assignment)
    ensures Assign(steps + [last]) ==
              match last
              case None => Assign(steps)
              case Some((k, v)) => Assign(steps)[k := v]
  {
    assert (steps + [last])[..|steps|] == steps;
  }
}
