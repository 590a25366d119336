/** The NBT tree the Sponge schematic format is stored in, as nbtlib presents it to the
    Python code: numbers of every width are Python integers, strings, byte arrays,
    lists and compounds (dictionaries keyed by name). Floating-point tags do not occur
    in the modelled paths. */
module Nbt {
  import Varint

  datatype Tag =
    | Int(n: int)
    | Str(s: string)
    | ByteArray(bytes: seq<Varint.uint8>)
    | List(items: seq<Tag>)
    | Compound(fields: map<string, Tag>)
}
