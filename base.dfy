/** Option and Result, and the model of hash-map iteration order shared by every module. */
module Base {

  datatype Option<+T> = None | Some(value: T)

  /** A value or an error, as Rust's `Result` and Go's `(value, error)` pairs. */
  datatype Result<+T, +E> = Ok(value: T) | Err(error: E)

  /** The order in which a hash map hands out the keys of a given key set.
      Neither Rust's `HashMap` nor Go maps fix this order, so every operation
      whose outcome can depend on it takes one as a parameter. */
  type KeyOrder = set<string> -> seq<string>

  /** `s` lists every key of `ks` exactly once. */
  ghost predicate Enumerates(s: seq<string>, ks: set<string>) {
    && (forall i, j :: 0 <= i < j < |s| ==> s[i] != s[j])
    && (forall x :: x in s <==> x in ks)
  }

  ghost predicate ValidOrder(order: KeyOrder) {
    forall ks :: Enumerates(order(ks), ks)
  }

  lemma {:induction false} EnumerationLength(s: seq<string>, ks: set<string>)
    requires Enumerates(s, ks)
    ensures |s| == |ks|
    decreases |s|
  {
    if s != [] {
      var rest := s[1..];
      assert Enumerates(rest, ks - {s[0]}) by {
        forall x ensures x in rest <==> x in ks - {s[0]} {
          if x in rest {
            var k :| 0 <= k < |rest| && rest[k] == x;
            assert s[k + 1] == x;
          }
          if x in ks - {s[0]} {
            var k :| 0 <= k < |s| && s[k] == x;
            assert k != 0;
            assert rest[k - 1] == x;
          }
        }
      }
      EnumerationLength(rest, ks - {s[0]});
    }
  }
}
