/**
 * The bookkeeping of `Imap_Attachment`: which name the attachment is saved under,
 * its MIME type, size and transfer encoding, the write-once cache of its decoded
 * body, and the path `save_to_directory` writes to. Fetching the body, decoding it,
 * naming the MIME type id and the file system are inputs here.
 */
module ImapAttachment {
  import opened Wrappers
  import opened PhpString

  /**
   * The parts of an IMAP body-structure object an attachment reads, with `parameters`
   * standing for the map `Imap_Message::get_parameters_from_structure` extracts from it
   * (that message class is not part of this model).
   */
  datatype Structure = Structure(typeId: int, subtype: Option<string>, bytes: int, encoding: int,
                                 parameters: map<string, string>)

  /** The stored file name: the "filename" parameter, else the "name" parameter, else none. */
  function SelectFilename(parameters: map<string, string>): (r: Option<string>)
    ensures r.None? <==> "filename" !in parameters && "name" !in parameters
    ensures r.Some? ==> r.value in parameters.Values
    ensures "filename" in parameters ==> r == Some(parameters["filename"])
    ensures "filename" !in parameters && "name" in parameters ==> r == Some(parameters["name"])
  {
    if "filename" in parameters then Some(parameters["filename"])
    else if "name" in parameters then Some(parameters["name"])
    else None
  }

  /** The MIME type: the major type's name, then "/" and the lower-cased subtype when there is one. */
  function MimeTypeOf(typeName: string, subtype: Option<string>): string {
    if subtype.Some? then typeName + "/" + StrToLower(subtype.value) else typeName
  }

  /** The MIME type starts with the major type's name. */
  lemma MimeTypeStartsWithType(typeName: string, subtype: Option<string>)
    ensures |typeName| <= |MimeTypeOf(typeName, subtype)| && MimeTypeOf(typeName, subtype)[..|typeName|] == typeName
  {
    if subtype.Some? {
      var low := StrToLower(subtype.value);
      assert (typeName + "/" + low)[..|typeName|] == typeName;
    }
  }

  /**
   * When the major type's name holds no '/', the MIME type reads back at its first '/':
   * what follows it is the lower-cased subtype, and there is no '/' without a subtype.
   */
  lemma MimeTypeSubtypeAfterSlash(typeName: string, subtype: Option<string>)
    requires '/' !in typeName
    ensures AfterFirst(MimeTypeOf(typeName, subtype), '/') ==
      if subtype.Some? then Some(StrToLower(subtype.value)) else None
  {
    if subtype.Some? {
      AfterFirstConcat(typeName, '/', StrToLower(subtype.value));
    }
  }

  /** The subtype part of the MIME type holds no upper-case ASCII letter. */
  lemma MimeSubtypeIsLowerCase(typeName: string, sub: string)
    ensures var m := MimeTypeOf(typeName, Some(sub));
      forall i :: |typeName| < i < |m| ==> !IsUpper(m[i])
  {
    var low := StrToLower(sub);
    var m := MimeTypeOf(typeName, Some(sub));
    StrToLowerNormalises(sub);
    assert forall i :: |typeName| < i < |m| ==> m[i] == low[i - |typeName| - 1];
  }

  /** `rtrim($path, '/') . '/'`: the directory the attachment is saved into. */
  function DirectoryOf(path: string): string {
    RTrim(path, '/') + "/"
  }

  /**
   * The directory ends in exactly one '/', it is the path with its trailing slashes
   * replaced by one, and normalising it again changes nothing.
   */
  lemma DirectoryOfOneSlash(path: string)
    ensures var d := DirectoryOf(path);
      && d[|d| - 1] == '/'
      && (|d| == 1 || d[|d| - 2] != '/')
      && d[..|d| - 1] <= path
      && (forall k :: |d| - 1 <= k < |path| ==> path[k] == '/')
      && DirectoryOf(d) == d
  {
    var r := RTrim(path, '/');
    var d := DirectoryOf(path);
    assert d[..|d| - 1] == r;
    assert RTrim(d, '/') == r by {
      assert d[..|d| - 1] == r;
      RTrimUnique(d, '/', r);
    }
  }

  /** `$path . $this->get_file_name()`: FALSE concatenates as the empty string. */
  function FileNameText(filename: Option<string>): string {
    if filename.Some? then filename.value else ""
  }

  class Attachment {
    var structure: Structure
    var messageId: int
    var partId: Option<string>
    var filename: Option<string>
    var size: int
    var mimeType: string
    var encoding: int
    var data: Option<string>
    /** `Imap_Message::type_id_to_string($structure->type)`, as the constructor saw it. */
    ghost var typeName: string
    /** How many times the body was fetched from the server. */
    ghost var fetches: nat

    ghost predicate Valid()
      reads this
    {
      && filename == SelectFilename(structure.parameters)
      && size == structure.bytes
      && encoding == structure.encoding
      && mimeType == MimeTypeOf(typeName, structure.subtype)
      && fetches == if data.Some? then 1 else 0
    }

    /**
     * `new Imap_Attachment($message, $structure, $part_identifier = NULL)` for the message
     * with UID `messageUid`; `typeIdToString` is `Imap_Message::type_id_to_string`.
     */
    constructor (messageUid: int, structure: Structure, typeIdToString: int -> string,
                 partIdentifier: Option<string> := None)
      ensures Valid()
      ensures this.messageId == messageUid && this.structure == structure && this.partId == partIdentifier
      ensures this.typeName == typeIdToString(structure.typeId)
      ensures this.data == None && this.fetches == 0
    {
      this.messageId := messageUid;
      this.structure := structure;
      this.partId := partIdentifier;
      var parameters := structure.parameters;
      if "filename" in parameters {
        this.filename := Some(parameters["filename"]);
      } else if "name" in parameters {
        this.filename := Some(parameters["name"]);
      } else {
        this.filename := None;
      }
      this.size := structure.bytes;
      this.typeName := typeIdToString(structure.typeId);
      this.mimeType := typeIdToString(structure.typeId);
      if structure.subtype.Some? {
        this.mimeType := this.mimeType + "/" + StrToLower(structure.subtype.value);
      }
      this.encoding := structure.encoding;
      this.data := None;
      this.fetches := 0;
    }

    /**
     * `get_data()`: the first call fetches the body part (or the whole body when no part
     * id is set) through `fetchPart`/`fetchBody`, decodes it and caches it; later calls
     * return the cache and fetch nothing.
     */
    method GetData(fetchPart: (int, string) -> string, fetchBody: int -> string, decode: (string, int) -> string)
      returns (body: string)
      requires Valid()
      modifies this`data, this`fetches
      ensures Valid() && fetches <= 1
      ensures old(data).Some? ==> body == old(data).value && data == old(data) && fetches == old(fetches)
      ensures old(data).None? ==> data == Some(body) && fetches == 1
      ensures old(data).None? ==>
        body == decode(if partId.Some? then fetchPart(messageId, partId.value) else fetchBody(messageId), encoding)
    {
      if data.None? {
        var messageBody := if partId.Some? then fetchPart(messageId, partId.value) else fetchBody(messageId);
        fetches := fetches + 1;
        messageBody := decode(messageBody, encoding);
        data := Some(messageBody);
      }
      body := data.value;
    }

    /** `get_file_name()`: the stored name, or None for FALSE. */
    function GetFileName(): (name: Option<string>)
      reads this
      requires Valid()
      ensures name.None? <==> "filename" !in structure.parameters && "name" !in structure.parameters
      ensures name.Some? ==> name.value in structure.parameters.Values
    {
      filename
    }

    /** `getmime_type()`. */
    function GetMimeType(): (mime: string)
      reads this
      requires Valid()
      ensures mime == MimeTypeOf(typeName, structure.subtype)
    {
      mimeType
    }

    /** `get_size()`: the structure's byte count. */
    function GetSize(): (n: int)
      reads this
      requires Valid()
      ensures n == structure.bytes
    {
      size
    }

    /**
     * `save_to_directory($path)`, with `is_dir` and `save_as` as inputs: FALSE when the
     * normalised directory does not exist, else whatever saving to "directory + name" gives.
     */
    function SaveToDirectory(path: string, isDir: string -> bool, saveAs: string -> bool): (saved: bool)
      reads this
      ensures !isDir(DirectoryOf(path)) ==> !saved
      ensures isDir(DirectoryOf(path)) ==> saved == saveAs(DirectoryOf(path) + FileNameText(filename))
    {
      var dir := DirectoryOf(path);
      if isDir(dir) then saveAs(dir + FileNameText(filename)) else false
    }
  }

  /** Two calls of `get_data`, even over different connections, give the same body and fetch once. */
  method GetDataTwice(a: Attachment,
                      fetchPart1: (int, string) -> string, fetchBody1: int -> string, decode1: (string, int) -> string,
                      fetchPart2: (int, string) -> string, fetchBody2: int -> string, decode2: (string, int) -> string)
    returns (first: string, second: string)
    requires a.Valid()
    modifies a
    ensures first == second && a.data == Some(first) && a.fetches == 1
  {
    first := a.GetData(fetchPart1, fetchBody1, decode1);
    second := a.GetData(fetchPart2, fetchBody2, decode2);
  }
}
