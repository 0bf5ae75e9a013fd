/** What users ask the store to do: single operations, and batches that take effect as a whole. */
module Operations {
  import opened DbFormat

  datatype Op = Put(key: Key, value: Value) | Delete(key: Key)

  type Batch = seq<Op>
}
