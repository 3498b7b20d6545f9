/** Host-side objects an argument can refer to (include/drivers/mem.h, include/drivers/kernel.h). */
module Objects {
  import opened Bits

  const CL_MEM_READ_WRITE: bv32 := 1
  const CL_MEM_WRITE_ONLY: bv32 := 2
  const CL_MEM_READ_ONLY: bv32 := 4

  /** A `cl_mem`; `data` is the buffer behind `ptr`, and its length is `size`. */
  class ClMem {
    var flags: bv32
    var data: seq<byte>

    constructor (flags: bv32, data: seq<byte>)
      ensures this.flags == flags && this.data == data
    {
      this.flags := flags;
      this.data := data;
    }

    /** `mem_can_read`: the kernel reads from this buffer. */
    predicate CanRead(): (r: bool)
      reads this
      ensures r <==> flags & 5 != 0
    {
      (flags & CL_MEM_READ_WRITE) != 0 || (flags & CL_MEM_READ_ONLY) != 0
    }

    /** `mem_can_write`: the kernel may change this buffer. */
    predicate CanWrite(): (r: bool)
      reads this
      ensures r <==> flags & 3 != 0
    {
      (flags & CL_MEM_READ_WRITE) != 0 || (flags & CL_MEM_WRITE_ONLY) != 0
    }
  }

  /** Host memory that a caller's pointer refers to; `handle` is its content read as a `cl_mem`. */
  class HostCell {
    var data: seq<byte>
    var handle: ClMem?

    constructor (data: seq<byte>, handle: ClMem?)
      ensures this.data == data && this.handle == handle
    {
      this.data := data;
      this.handle := handle;
    }
  }

  /** `struct kern_arg` by its `argtype`. A direct value keeps the caller's pointer, not a copy. */
  datatype KernArg =
    | NotUsed(index: nat)
    | Val(index: nat, size: nat, ptr: HostCell)
    | Mem(index: nat, size: nat, mem: ClMem?)
}
