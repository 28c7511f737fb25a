/**
 * The part of a named-binary-tag compound the crate tile reads and writes: tags by name,
 * with the string accessors of the host's `CompoundTag`.
 */
module Nbt {
  import opened Wrappers

  /** A tag value. Tags of kinds other than strings are represented by `IntTag`. */
  datatype Tag = StringTag(text: string) | IntTag(number: int)

  /** The exceptions `CompoundTag::getString` throws. */
  datatype NbtError = NoSuchTag(name: string) | UnexpectedTagType(name: string)

  /** `getString(name)` without a default: the string stored under `name`, or the error thrown. */
  function StringAt(tags: map<string, Tag>, name: string): (r: Result<string, NbtError>)
    ensures r.Success? <==> name in tags && tags[name].StringTag?
    ensures r.Success? ==> tags[name] == StringTag(r.value)
    ensures r.Failure? && name !in tags ==> r.error == NoSuchTag(name)
    ensures r.Failure? && name in tags ==> r.error == UnexpectedTagType(name)
  {
    if name !in tags then Failure(NoSuchTag(name))
    else match tags[name]
      case StringTag(text) => Success(text)
      case IntTag(_) => Failure(UnexpectedTagType(name))
  }

  /** `setString(name, value)`: stores a string under `name` and leaves every other tag alone. */
  function WithString(tags: map<string, Tag>, name: string, value: string): (r: map<string, Tag>)
    ensures StringAt(r, name) == Success(value)
    ensures forall k :: k != name ==> (k in r <==> k in tags)
    ensures forall k :: k != name && k in tags ==> r[k] == tags[k]
  {
    tags[name := StringTag(value)]
  }

  /** A mutable compound tag. */
  class CompoundTag {
    var tags: map<string, Tag>

    constructor (tags: map<string, Tag>)
      ensures this.tags == tags
    {
      this.tags := tags;
    }

    method SetString(name: string, value: string)
      modifies this
      ensures tags == WithString(old(tags), name, value)
    {
      tags := WithString(tags, name, value);
    }
  }
}
