/**
 * utils/array_utils.go. Go's ItemExists takes an interface{} and panics unless it
 * holds a slice; here the parameter is typed as a sequence, so that check is
 * discharged by the type system. A sequence is a value, so the search cannot
 * change what the caller passed.
 */
module ArrayUtils {

  /** ItemExists: a linear search that stops at the first element equal to item. */
  method ItemExists<T(==)>(arr: seq<T>, item: T) returns (found: bool)
    ensures found <==> exists i :: 0 <= i < |arr| && arr[i] == item
    ensures |arr| == 0 ==> !found
  {
    var i := 0;
    while i < |arr|
      invariant 0 <= i <= |arr|
      invariant forall j :: 0 <= j < i ==> arr[j] != item
    {
      if arr[i] == item {
        return true;
      }
      i := i + 1;
    }
    return false;
  }

  /** The two cases of utils/array_utils_test.go. */
  method ItemExistsExamples() returns (found: bool, missing: bool)
    ensures found && !missing
  {
    var extensions := [".png", ".jpeg", ".gif"];
    found := ItemExists(extensions, ".jpeg");
    assert extensions[1] == ".jpeg";
    missing := ItemExists(extensions, ".notFound");
  }
}
