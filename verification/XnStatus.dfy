/** The status codes the modelled operations return. */
module XnStatus {
  datatype Status =
    | OK
    | ALLOC_FAILED
    | ILLEGAL_POSITION
    | NO_MATCH
    | NULL_INPUT_PTR
}
