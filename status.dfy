/** Status codes and three-valued truth of the generic-ring layer.
    Every fallible operation returns a status; the statuses of sub-operations
    are combined with bitwise or, so any failure bit of a part taints the whole. */
module Status {

  /** GR_SUCCESS = 0, GR_DOMAIN = 1, GR_UNABLE = 2; an or of both bits is 3. */
  type Status = bv2

  const SUCCESS: Status := 0
  const DOMAIN: Status := 1
  const UNABLE: Status := 2

  /** T_TRUE, T_FALSE, T_UNKNOWN: the answer of a predicate that may be undecidable. */
  datatype Truth = True | False | Unknown

  /** A status together with the value an operation wrote into its output slot. */
  datatype Out<T> = Out(status: Status, value: T)

  /** The status after `status = SUCCESS; status |= s[0]; ...; status |= s[n-1]`:
      SUCCESS exactly when every part succeeded, and every part's failure
      bits are already in it (any failure taints the whole). */
  function OrAll(s: seq<Status>): (r: Status)
    ensures r == SUCCESS <==> forall i :: 0 <= i < |s| ==> s[i] == SUCCESS
    ensures forall i :: 0 <= i < |s| ==> r | s[i] == r
  {
    if |s| == 0 then SUCCESS else OrAll(s[..|s| - 1]) | s[|s| - 1]
  }

  /** One more step of the loop: the prefix of length i + 1 ors in part i. */
  lemma OrAllStep(s: seq<Status>, i: nat)
    requires i < |s|
    ensures OrAll(s[..i + 1]) == OrAll(s[..i]) | s[i]
  {
    assert s[..i + 1][..i] == s[..i];
  }

  /** A bit is set in the accumulated status exactly when some part has it set. */
  lemma {:induction false} OrAllBit(s: seq<Status>, bit: Status)
    ensures (OrAll(s) & bit != 0) <==> exists i :: 0 <= i < |s| && s[i] & bit != 0
  {
    if |s| > 0 {
      var init := s[..|s| - 1];
      OrAllBit(init, bit);
      assert forall i :: 0 <= i < |init| ==> init[i] == s[i];
      if OrAll(init) & bit != 0 {
        var i :| 0 <= i < |init| && init[i] & bit != 0;
        assert s[i] & bit != 0;
      }
    }
  }
}
