/** The status codes the firmware services and the SRE libraries return. */
module Efi {
  datatype Status =
    | Success
    | InvalidParameter
    | Unsupported
    | Aborted
    | NotReady
    | EndOfMedia
    | ProtocolError
    | DeviceError
    | OutOfResources
    | BadBufferSize
    | MediaChanged
    | NotFound
    | SecurityViolation
}
