/** Memory as an object that code writes in place. */
module Ram {
  import opened Bytes

  class Ram {
    var bytes: Mem

    constructor (bytes: Mem)
      ensures this.bytes == bytes
    {
      this.bytes := bytes;
    }
  }
}
