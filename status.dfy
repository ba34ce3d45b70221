/**
 * The status codes shared by the installer-facing operations
 * (they match the install codes of the package manager).
 */
module Status {
  const INSTALL_SUCCEEDED := 1
  const INSTALL_FAILED_INVALID_APK := -2
  const INSTALL_FAILED_INSUFFICIENT_STORAGE := -4
  const INSTALL_FAILED_CONTAINER_ERROR := -18
  const INSTALL_FAILED_INTERNAL_ERROR := -110
  const INSTALL_FAILED_NO_MATCHING_ABIS := -113
  const NO_NATIVE_LIBRARIES := -114

  datatype InstallStatus =
    | Succeeded
    | InvalidApk
    | InsufficientStorage
    | ContainerError
    | InternalError
    | NoMatchingAbis
    | NoNativeLibraries
  {
    /** The integer the native code returns for this status. */
    function Code(): int {
      match this
      case Succeeded => INSTALL_SUCCEEDED
      case InvalidApk => INSTALL_FAILED_INVALID_APK
      case InsufficientStorage => INSTALL_FAILED_INSUFFICIENT_STORAGE
      case ContainerError => INSTALL_FAILED_CONTAINER_ERROR
      case InternalError => INSTALL_FAILED_INTERNAL_ERROR
      case NoMatchingAbis => INSTALL_FAILED_NO_MATCHING_ABIS
      case NoNativeLibraries => NO_NATIVE_LIBRARIES
    }
  }

  /** Distinct statuses have distinct codes, so a caller can dispatch on the integer alone. */
  lemma CodeInjective(a: InstallStatus, b: InstallStatus)
    ensures a.Code() == b.Code() <==> a == b
  {
  }
}
