/**
 * MSI_BLOB (TMsi.h): a heap buffer and its size, owned by a file object.
 * HeapAlloc's success is an input of Reserve.
 */
module MsiBlobs {
  import opened WideString
  import opened MsiApi

  class MsiBlob {
    var pbData: array?<Byte>
    var cbData: nat

    /** Consistent state: no buffer means no size, and the size never exceeds the buffer. */
    ghost predicate Valid()
      reads this`pbData, this`cbData
    {
      (pbData == null ==> cbData == 0) && (pbData != null ==> cbData <= pbData.Length)
    }

    /** A new blob is empty. */
    constructor()
      ensures pbData == null && cbData == 0
      ensures Valid()
    {
      pbData := null;
      cbData := 0;
    }

    /** The destructor: frees the buffer and leaves the blob empty. */
    method Free()
      modifies this
      ensures pbData == null && cbData == 0
      ensures Valid()
    {
      pbData := null;
      cbData := 0;
    }

    /**
     * Reserve(cbSize): allocates a zero-filled buffer of max(cbSize, 1) bytes
     * and makes that the size. When the allocation fails it returns
     * ERROR_NOT_ENOUGH_MEMORY and the size is unchanged. The blob must not
     * hold a buffer yet.
     */
    method Reserve(cbSize: nat, heapOk: bool) returns (err: nat)
      requires pbData == null
      modifies this
      ensures heapOk ==> err == ERROR_SUCCESS && pbData != null && fresh(pbData)
      ensures heapOk ==> cbData == Max(cbSize, 1) && pbData.Length == cbData
      ensures heapOk ==> forall k | 0 <= k < pbData.Length :: pbData[k] == 0
      ensures !heapOk ==> err == ERROR_NOT_ENOUGH_MEMORY && pbData == null && cbData == old(cbData)
    {
      var size := Max(cbSize, 1);
      if !heapOk {
        pbData := null;
        return ERROR_NOT_ENOUGH_MEMORY;
      }
      pbData := new Byte[size](_ => 0);
      cbData := size;
      err := ERROR_SUCCESS;
    }
  }
}
