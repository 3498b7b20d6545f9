/** The OpenCL status codes that the modelled functions return (include/CL/cl.h). */
module Codes {
  const CL_SUCCESS: int := 0
  const CL_DEVICE_NOT_FOUND: int := -1
  const CL_OUT_OF_RESOURCES: int := -5
  const CL_OUT_OF_HOST_MEMORY: int := -6
  const CL_INVALID_VALUE: int := -30
  const CL_INVALID_DEVICE: int := -33
  const CL_INVALID_MEM_OBJECT: int := -38
  const CL_INVALID_BINARY: int := -42
  const CL_INVALID_KERNEL: int := -48
  const CL_INVALID_ARG_VALUE: int := -50
}
