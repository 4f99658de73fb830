/** The text-processing limits of the application's configuration. */
module Config {

  /** Maximum number of characters accepted for text input. */
  const MaxTextLength: nat := 5000

  /** Default target size of a chunk, in characters of its sentences. */
  const ChunkSize: nat := 1000
}
