/** The answers of the PAPI calls, as src/papi.h numbers them. */
module Codes {
  const PAPI_OK := 0
  /** The place of an event that is not there. */
  const PAPI_NULL := -1
  const PAPI_EINVAL := -1
  const PAPI_ENOMEM := -2
  const PAPI_ESYS := -3
  const PAPI_EBUG := -6
  const PAPI_ENOEVNT := -7
  const PAPI_ECNFLCT := -8
  const PAPI_ENOTRUN := -9
  const PAPI_EISRUN := -10
  const PAPI_ENOCMP := -17
}
