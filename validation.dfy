/** The instance-extension check of validation.c: every extension name GLFW requires must
    be among the names the Vulkan implementation reports. */
module Validation {

  /** Some available extension carries exactly this name (strcmp equality). */
  predicate Supported(available: seq<string>, name: string) {
    exists j :: 0 <= j < |available| && available[j] == name
  }

  predicate AllSupported(available: seq<string>, required: seq<string>) {
    forall i :: 0 <= i < |required| ==> Supported(available, required[i])
  }

  /** verify_extensions_support: for each required name in order, scan the available
      names and stop at the first match; return false at the first required name with no
      match. `missing` is that name's position when the result is false. */
  method VerifyExtensionsSupport(available: seq<string>, required: seq<string>)
    returns (ok: bool, ghost missing: nat)
    ensures ok <==> AllSupported(available, required)
    ensures |required| == 0 ==> ok
    ensures |required| > 0 && |available| == 0 ==> !ok
    ensures !ok ==>
      missing < |required| && !Supported(available, required[missing]) &&
      forall i :: 0 <= i < missing ==> Supported(available, required[i])
  {
    var i := 0;
    while i < |required|
      invariant i <= |required|
      invariant forall k :: 0 <= k < i ==> Supported(available, required[k])
    {
      var found := false;
      var j := 0;
      while j < |available|
        invariant j <= |available|
        invariant !found
        invariant forall l :: 0 <= l < j ==> available[l] != required[i]
      {
        if available[j] == required[i] {
          found := true;
          break;
        }
        j := j + 1;
      }
      if !found {
        assert !Supported(available, required[i]);
        return false, i;
      }
      i := i + 1;
    }
    assert |required| > 0 ==> Supported(available, required[0]);
    return true, 0;
  }
}
