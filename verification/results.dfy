/** The failures of the compressor and decompressor, which the program
    raises as Python exceptions. */
module Results {

  datatype Failure =
    | EmptyText   // compress: `nodes[0]` on an empty node list
    | NoTrailer   // decompress: `pop()` on an empty list of payload bytes
    | NoPayload   // decompress: `binary_list[-1]` once the trailer is popped

  datatype Result<+T> = Ok(value: T) | Err(error: Failure)
}
