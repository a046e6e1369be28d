/**
 * The records a pipeline produces: the field values a processor extracts, the
 * declaration of a field (`PipelineField`), the identity and location record
 * of a file (`FileIndex`) and that record extended with its body
 * (`FileContent`).
 */
module PipelineFile {
  import opened Options

  /**
   * A field value as JavaScript holds it. Numbers are integers here; objects
   * are left out.
   */
  datatype Value = Undefined | Null | Bool(b: bool) | Number(n: int) | Str(s: string) | List(items: seq<Value>)

  /** `undefined` or `null`: the values that `??` replaces. */
  predicate IsNullish(v: Value)
  {
    v.Undefined? || v.Null?
  }

  /** A field declaration: its type tag, whether it is required (absent means false) and its optional `resolve`. */
  datatype FieldSpec = FieldSpec(fieldType: string, required: bool, resolve: Option<Value -> Value>)

  /** Where a file sits and who it is, independent of its body. */
  datatype FileIndex = FileIndex(
    id: string,
    typeName: string,
    path: string,
    modifiedDate: int,
    sections: seq<string>,
    fields: map<string, Value>)

  /** A `FileIndex` extended with the body a processor extracted. */
  datatype FileContent = FileContent(
    id: string,
    typeName: string,
    path: string,
    modifiedDate: int,
    sections: seq<string>,
    fields: map<string, Value>,
    content: string)

  /**
   * A `FileContent` as a mutable JavaScript object, for hooks that update a
   * record in place and hand the same object back.
   */
  class FileContentRecord {
    var id: string
    var typeName: string
    var path: string
    var modifiedDate: int
    var sections: seq<string>
    var fields: map<string, Value>
    var content: string

    /** The record's current value. */
    function Value(): FileContent
      reads this
    {
      FileContent(id, typeName, path, modifiedDate, sections, fields, content)
    }

    constructor (v: FileContent)
      ensures Value() == v
    {
      id, typeName, path, modifiedDate := v.id, v.typeName, v.path, v.modifiedDate;
      sections, fields, content := v.sections, v.fields, v.content;
    }
  }
}
