/** Typed failures, include/x360port/runtime_failure.hpp and guest_call.hpp. */
module RuntimeFailures {
  import opened Bytes

  datatype RuntimeError =
    | NoError
    | InstanceAlreadyActive
    | MemoryInitializationFailed
    | BackendInitializationFailed
    | StackAllocationFailed
    | ModuleAlreadyLoaded
    | ModuleValidationFailed
    | ImportValidationFailed
    | VariableResolutionFailed
    | ImportAttachmentFailed
    | LoadStateInvalid
    | ImageAllocationFailed
    | ModuleRegistrationFailed
    | EntryOutsideCode
    | TranslationFailed
    | InterpreterFallbackUnsupported
    | InterpreterFallbackMemoryInvalid
    | InterpreterFallbackBudgetExceeded
    | ExecutionBudgetInvalid
    | ExecutionBudgetExceeded
    | ExecutionInvalidated
    | GuestAccessViolation
    | ImportServiceRefused
    | ExecutionFailed
    | OverrideInvalid
    | OverrideAlreadyInstalled
    | OverrideNotInstalled
    | OverrideDispatchFailed
    | DeviceRangeInvalid
    | DeviceRangeRegistrationFailed
    | ExecutableRangeInvalid
    | ExecutableWatchRegistrationFailed
    | ExecutableWatchRearmFailed
    | GuestMemoryAllocationFailed
    | GuestMemoryRangeInvalid

  /** `detail` stands for whatever message the failing side wrote. */
  datatype RuntimeFailure = RuntimeFailure(error: RuntimeError, detail: text) {
    predicate Failed() {
      error != NoError
    }
  }

  const NO_FAILURE := RuntimeFailure(NoError, [])

  /** A failure whose message is not modelled. */
  function Fail(error: RuntimeError): RuntimeFailure {
    RuntimeFailure(error, [])
  }

  datatype ExecutionResult = ExecutionResult(failure: RuntimeFailure, value: u64) {
    predicate Succeeded() {
      !failure.Failed()
    }
  }
}
