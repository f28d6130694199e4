/**
 * Browser `FormData`: an ordered list of named parts, each a text value or a
 * file, built by successive `append` calls and sent as a multipart body.
 */
module Multipart {
  import opened Wrappers
  import opened PostModel

  /**
   * A selected file as the server will judge it: the extension of its client
   * file name, the extension detected from its content, whether its content is
   * an image, and its size in bytes.
   */
  datatype Upload = Upload(clientExtension: string, detectedExtension: string, isImage: bool, sizeBytes: nat)

  datatype Value = TextPart(s: string) | FilePart(file: Upload)

  datatype Entry = Entry(name: string, value: Value)

  class FormData {
    var entries: seq<Entry>

    constructor ()
      ensures entries == []
    {
      entries := [];
    }

    /** `data.append(name, value)` */
    method Append(name: string, value: Value)
      modifies this
      ensures entries == old(entries) + [Entry(name, value)]
    {
      entries := entries + [Entry(name, value)];
    }
  }

  /** The names of the parts, in order. */
  function Names(entries: seq<Entry>): (r: seq<string>)
    ensures |r| == |entries|
    ensures forall i :: 0 <= i < |entries| ==> r[i] == entries[i].name
  {
    seq(|entries|, i requires 0 <= i < |entries| => entries[i].name)
  }

  /** The five text parts both pages append first, in the order they append them. */
  function FieldParts(fields: Fields): seq<Entry>
  {
    [Entry(Name(Title), TextPart(fields.title)),
     Entry(Name(Author), TextPart(fields.author)),
     Entry(Name(Category), TextPart(fields.category)),
     Entry(Name(Status), TextPart(fields.status)),
     Entry(Name(Content), TextPart(fields.content))]
  }

  /** The image part, present only when a file was chosen (`if (formData.image)`). */
  function ImagePart(image: Option<Upload>): seq<Entry>
  {
    if image.Some? then [Entry("image", FilePart(image.value))] else []
  }
}
