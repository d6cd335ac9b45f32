/** The capability token shared by the GPU process modules. */
module GpuTypes {
  import opened Common

  /** A capability minted by the coordinator; consumers only read its fields. */
  datatype ScopeToken = ScopeToken(profileId: Uuid, mode: Mode, epoch: U64)
}
