/**
 * The path-based pipeline (`ContentedPipeline`): a pipeline configuration
 * object, the default field declarations its constructor merges in, the
 * per-file `process` step and the `sort` hook.
 */
module Pipeline {
  import opened Options
  import opened PipelineFile
  import opened PathResolver
  import opened ArraySort

  /**
   * A pipeline's configuration object. Its `fields` are reassigned by the
   * `ContentedPipeline` constructor; the rest is read only. `undefined`
   * members are `None`.
   */
  class PipelineConfig {
    const typeName: string
    const pattern: seq<string>
    var fields: Option<map<string, FieldSpec>>
    const transform: Option<FileContent -> FileContent>
    const sort: Option<(FileIndex, FileIndex) -> int>

    constructor (typeName: string, pattern: seq<string>, fields: Option<map<string, FieldSpec>>,
                 transform: Option<FileContent -> FileContent>, sort: Option<(FileIndex, FileIndex) -> int>)
      ensures this.typeName == typeName && this.pattern == pattern && this.fields == fields
      ensures this.transform == transform && this.sort == sort
    {
      this.typeName, this.pattern, this.fields := typeName, pattern, fields;
      this.transform, this.sort := transform, sort;
    }
  }

  /** The declaration `{ type: 'string' }` of the two default fields. */
  const StringField := FieldSpec("string", false, None)

  /** The fields every pipeline has unless the user declares them otherwise. */
  const DefaultFields: map<string, FieldSpec> := map["title" := StringField, "description" := StringField]

  /**
   * `{ title: …, description: …, ...fields }`: the defaults beneath the
   * user's declarations; spreading `undefined` adds nothing.
   */
  function WithDefaultFields(user: Option<map<string, FieldSpec>>): (r: map<string, FieldSpec>)
    ensures "title" in r && "description" in r
    ensures user.Some? ==> forall k :: k in user.value ==> k in r && r[k] == user.value[k]
    ensures forall k :: k in DefaultFields && (user.None? || k !in user.value) ==> r[k] == DefaultFields[k]
    ensures r.Keys == DefaultFields.Keys + (if user.Some? then user.value.Keys else {})
  {
    DefaultFields + (if user.Some? then user.value else map[])
  }

  /** Merging the defaults a second time changes nothing. */
  lemma WithDefaultFieldsIdempotent(user: Option<map<string, FieldSpec>>)
    ensures WithDefaultFields(Some(WithDefaultFields(user))) == WithDefaultFields(user)
  {
    var once := WithDefaultFields(user);
    var twice := WithDefaultFields(Some(once));
    assert twice.Keys == once.Keys;
    forall k | k in once ensures twice[k] == once[k] {
    }
  }

  /**
   * A path-based pipeline. `processFileIndex`, which subclasses supply, is a
   * function given at construction; the foreign calls of path resolution
   * are in `foreign`.
   */
  class ContentedPipeline {
    const rootPath: string
    const pipeline: PipelineConfig
    const foreign: Foreign
    const processFileIndex: (FileIndex, string, string) -> Option<seq<FileContent>>

    /** Stores the arguments and merges the default fields into the shared configuration. */
    constructor (rootPath: string, pipeline: PipelineConfig, foreign: Foreign,
                 processFileIndex: (FileIndex, string, string) -> Option<seq<FileContent>>)
      modifies pipeline
      ensures this.rootPath == rootPath && this.pipeline == pipeline
      ensures this.foreign == foreign && this.processFileIndex == processFileIndex
      ensures pipeline.fields == Some(WithDefaultFields(old(pipeline.fields)))
    {
      this.rootPath, this.pipeline, this.foreign := rootPath, pipeline, foreign;
      this.processFileIndex := processFileIndex;
      new;
      pipeline.fields := Some(WithDefaultFields(pipeline.fields));
    }

    /**
     * The records produced for one file: none when the processor yields
     * nothing, the processor's records as they are without a transform, and
     * otherwise each record transformed, in order. `modifiedDate` is the
     * file's modification time, read from the file system in the source.
     */
    function Process(rootPath: string, file: string, modifiedDate: int): (r: seq<FileContent>)
      ensures var contents := processFileIndex(NewFileIndex(foreign, pipeline.typeName, rootPath, file, modifiedDate), rootPath, file);
        && (contents.None? ==> r == [])
        && (contents.Some? && pipeline.transform.None? ==> r == contents.value)
        && (contents.Some? && pipeline.transform.Some? ==>
              |r| == |contents.value| &&
              forall i :: 0 <= i < |r| ==> r[i] == pipeline.transform.value(contents.value[i]))
    {
      var fileIndex := NewFileIndex(foreign, pipeline.typeName, rootPath, file, modifiedDate);
      match processFileIndex(fileIndex, rootPath, file)
      case None => []
      case Some(contents) =>
        match pipeline.transform
        case None => contents
        case Some(t) => seq(|contents|, i requires 0 <= i < |contents| => t(contents[i]))
    }

    /**
     * Without a comparator, hands back the same array untouched; with one,
     * sorts the same array in place, stably, by it.
     */
    method Sort(files: array<FileIndex>) returns (r: array<FileIndex>)
      modifies files
      ensures r == files
      ensures multiset(files[..]) == multiset(old(files[..]))
      ensures pipeline.sort.None? ==> files[..] == old(files[..])
      ensures pipeline.sort.Some? ==> files[..] == InsertionSorted(old(files[..]), pipeline.sort.value)
      ensures pipeline.sort.Some? && ConsistentFor(pipeline.sort.value, old(files[..])) ==>
        IsStableSortOf(files[..], old(files[..]), pipeline.sort.value)
    {
      match pipeline.sort
      case None =>
        r := files;
      case Some(cmp) =>
        SortInPlace(files, cmp);
        InsertionSortedPermutes(old(files[..]), cmp);
        if ConsistentFor(cmp, old(files[..])) {
          InsertionSortedIsStableSort(old(files[..]), cmp);
        }
        r := files;
    }
  }
}
