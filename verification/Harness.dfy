/** The product this seller sells: one public transform over one upstream answer. */
module Harness {
  import opened Bytes

  const MANIFEST_ID := Ascii("starts-with-yes-v1")
  const VERDICT_FN_ID := Ascii("starts_with_yes")
  const YES: bytes := [49]
  const NO: bytes := [48]

  /** Whether an answer counts as a yes is left to an arbitrary function of its bytes. */
  function StartsWithYes(answersYes: bytes -> bool, answer: bytes): (r: bytes)
    ensures r == YES || r == NO
    ensures answersYes(answer) ==> r == Ascii("1")
    ensures !answersYes(answer) ==> r == Ascii("0")
  {
    if answersYes(answer) then YES else NO
  }

  /** `recompute`: the transform named `fnId` over a node's inputs in order, a missing first input
      counting as empty; `None` for an unknown name. */
  function Rerun(answersYes: bytes -> bool, fnId: bytes, inputs: seq<bytes>): (r: Option<bytes>)
    ensures r.Some? <==> fnId == Ascii("starts_with_yes")
    ensures r.Some? ==> r.value == YES || r.value == NO
    ensures r.Some? ==> (r.value == YES <==> answersYes(if inputs == [] then [] else inputs[0]))
  {
    if fnId == VERDICT_FN_ID then Some(StartsWithYes(answersYes, if inputs == [] then [] else inputs[0])) else None
  }
}
