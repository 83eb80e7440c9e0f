/**
 * The record the skip list stores. The codec package that defines it is not
 * part of this model, so an entry is a key, an opaque value and the byte
 * footprint its `Size()` accessor reports.
 */
module Codec {
  import opened Bytes

  datatype Entry = Entry(key: seq<Byte>, value: seq<Byte>, size: nat)
}
