/** Memory allocation as the modelled code sees it. */
module Memory {

  /** Which of the allocation requests of a run succeed, in the order in which they are made. */
  type Requests = nat -> bool

  /** Every request from the n-th on succeeds. */
  ghost predicate Plenty(memory: Requests, n: nat) {
    forall k: nat :: n <= k ==> memory(k)
  }

  /** None does. */
  ghost predicate Exhausted(memory: Requests, n: nat) {
    forall k: nat :: n <= k ==> !memory(k)
  }
}
