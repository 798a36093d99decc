/**
 A merged document is the set of the operations it contains; merging is union.
 */
module Updates {
  datatype Op = Op(n: nat)
}
