/**
 * The example `Doc` pipeline's hooks: the `resolve` default of its `title`
 * field and its `transform`, which lifts files under `docs/` to the site
 * root.
 */
module ExampleConfig {
  import opened Options
  import opened Text
  import opened PipelineFile
  import opened PathResolver
  import opened Pipeline

  /** `s ?? 'Contented'` */
  function TitleResolve(v: Value): (r: Value)
    ensures IsNullish(v) ==> r == Str("Contented")
    ensures !IsNullish(v) ==> r == v
    ensures !IsNullish(r)
  {
    if IsNullish(v) then Str("Contented") else v
  }

  /** Resolving an already resolved title changes nothing. */
  lemma TitleResolveIdempotent(v: Value)
    ensures TitleResolve(TitleResolve(v)) == TitleResolve(v)
  {
  }

  /** The example pipeline's field declarations. */
  const DocFields: map<string, FieldSpec> := map[
    "title" := FieldSpec("string", true, Some(TitleResolve)),
    "description" := FieldSpec("string", false, None)]

  /** The defaults add nothing to the example's declarations and override none of them. */
  lemma DocFieldsMerged()
    ensures WithDefaultFields(Some(DocFields)) == DocFields
    ensures WithDefaultFields(Some(DocFields))["title"].required
  {
    assert WithDefaultFields(Some(DocFields)).Keys == DocFields.Keys;
  }

  /**
   * `path.replaceAll(/^\/docs\/?/g, '/')`: the anchored pattern matches at
   * most once, at the start, and takes the slash after `/docs` when there
   * is one.
   */
  function RewriteDocsPrefix(p: string): (r: string)
    ensures r == p <==> !StartsWith(p, "/docs")
    ensures StartsWith(p, "/docs") ==> |r| >= 1 && r[0] == '/' && IsSuffix(r[1..], p)
    ensures StartsWith(p, "/docs") ==> |r| == |p| - (if StartsWith(p, "/docs/") then 5 else 4)
  {
    if StartsWith(p, "/docs/") then "/" + p[6..]
    else if StartsWith(p, "/docs") then "/" + p[5..]
    else p
  }

  /** `/docs/` followed by anything becomes `/` followed by the same. */
  lemma RewriteDocsSlash(q: string)
    ensures RewriteDocsPrefix("/docs/" + q) == "/" + q
  {
    assert ("/docs/" + q)[..6] == "/docs/";
    assert ("/docs/" + q)[6..] == q;
  }

  /** `/docs` followed by anything but a slash becomes `/` followed by the same. */
  lemma RewriteDocsBare(q: string)
    requires q == [] || q[0] != '/'
    ensures RewriteDocsPrefix("/docs" + q) == "/" + q
  {
    assert ("/docs" + q)[..5] == "/docs";
    assert ("/docs" + q)[5..] == q;
    if |q| > 0 {
      assert ("/docs" + q)[5] == q[0];
    }
  }

  /** `/docs/guide` becomes `/guide`, and `/docs` alone becomes `/`. */
  lemma RewriteDocsExamples()
    ensures RewriteDocsPrefix("/docs/guide") == "/guide"
    ensures RewriteDocsPrefix("/docs") == "/"
  {
    assert "/docs/guide" == "/docs/" + "guide";
    RewriteDocsSlash("guide");
    assert "/docs" == "/docs" + "";
    RewriteDocsBare("");
  }

  /** The rewrite is not segment-aware: `/docsx` becomes `/x`. */
  lemma RewriteDocsNotSegmentAware()
    ensures RewriteDocsPrefix("/docsx") == "/x"
  {
    assert "/docsx" == "/docs" + "x";
    RewriteDocsBare("x");
  }

  /** The rewrite happens at most once: `/docs/docs/a` becomes `/docs/a`. */
  lemma RewriteDocsOnce()
    ensures RewriteDocsPrefix("/docs/docs/a") == "/docs/a"
  {
    assert "/docs/docs/a" == "/docs/" + "docs/a";
    RewriteDocsSlash("docs/a");
  }

  /** A path outside `/docs` is kept. */
  lemma RewriteDocsKeeps()
    ensures RewriteDocsPrefix("/guide") == "/guide"
  {
    assert !StartsWith("/guide", "/docs") by {
      assert "/guide"[1] != "/docs"[1];
    }
  }

  /** `s.slice(start)` for a non-negative `start`: empty once `start` passes the end. */
  function SliceFrom<T>(s: seq<T>, start: nat): (r: seq<T>)
    ensures |r| == if start <= |s| then |s| - start else 0
    ensures forall i :: 0 <= i < |r| ==> r[i] == s[start + i]
  {
    if start <= |s| then s[start..] else []
  }

  /**
   * The example `transform` on a record's value: the path loses a leading
   * `/docs` prefix, the first section is dropped, and nothing else changes.
   */
  function DocTransform(f: FileContent): (g: FileContent)
    ensures g.path == RewriteDocsPrefix(f.path)
    ensures g.sections == SliceFrom(f.sections, 1)
    ensures g.id == f.id && g.typeName == f.typeName && g.modifiedDate == f.modifiedDate
    ensures g.fields == f.fields && g.content == f.content
  {
    f.(path := RewriteDocsPrefix(f.path), sections := SliceFrom(f.sections, 1))
  }

  /** Dropping the first section shortens a non-empty list by one and keeps an empty one. */
  lemma DocTransformSections(f: FileContent)
    ensures |DocTransform(f).sections| == if |f.sections| == 0 then 0 else |f.sections| - 1
    ensures |f.sections| > 0 ==> DocTransform(f).sections == f.sections[1..]
  {
  }

  /** The example `transform` itself: updates the record in place and returns the same record. */
  method TransformRecord(file: FileContentRecord) returns (r: FileContentRecord)
    modifies file
    ensures r == file
    ensures file.Value() == DocTransform(old(file.Value()))
  {
    file.path := RewriteDocsPrefix(file.path);
    file.sections := SliceFrom(file.sections, 1);
    r := file;
  }

  /**
   * A file under `docs/` (a directory slugified to `docs`) gets, after the
   * transform, the path and sections it would have at the root: the whole
   * `docs` level is lifted away. This needs the rest of the directory not
   * to slugify to the empty string.
   */
  lemma {:induction false} DocsTreeLifted(slugify: string -> string, rest: seq<string>, parsed: ParsedPath)
    requires slugify("docs") == "docs"
    requires rest == [] || SlugDir(slugify, rest) != ""
    ensures RewriteDocsPrefix("/" + ComputePath(slugify, ["docs"] + rest, parsed)) == "/" + ComputePath(slugify, rest, parsed)
    ensures SliceFrom(["docs"] + rest, 1) == rest
  {
    DocsPathLifted(slugify, rest, parsed);
    assert (["docs"] + rest)[1..] == rest;
  }

  /** The rewrite takes the path under `docs` to the path at the root. */
  lemma DocsPathLifted(slugify: string -> string, rest: seq<string>, parsed: ParsedPath)
    requires slugify("docs") == "docs"
    requires rest == [] || SlugDir(slugify, rest) != ""
    ensures RewriteDocsPrefix("/" + ComputePath(slugify, ["docs"] + rest, parsed)) == "/" + ComputePath(slugify, rest, parsed)
  {
    DocsPath(slugify, rest, parsed);
    var full := ComputePath(slugify, ["docs"] + rest, parsed);
    var lifted := ComputePath(slugify, rest, parsed);
    if rest == [] && SlugName(slugify, parsed) == "index" {
      DocsIndexLifted(full, lifted);
    } else {
      DocsOtherLifted(full, lifted);
    }
  }

  /** A top-level `index` under `docs` is lifted to the root path `/`. */
  lemma DocsIndexLifted(full: string, lifted: string)
    requires full == "docs" && lifted == ""
    ensures RewriteDocsPrefix("/" + full) == "/" + lifted
  {
    assert "/" + full == "/docs" + "";
    RewriteDocsBare("");
  }

  /** Any other path under `docs/` loses that prefix. */
  lemma DocsOtherLifted(full: string, lifted: string)
    requires full == "docs/" + lifted
    ensures RewriteDocsPrefix("/" + full) == "/" + lifted
  {
    assert "/" + full == "/docs/" + lifted;
    RewriteDocsSlash(lifted);
  }

  /** Under `docs`, the path is `docs`, then `/` and the path at the root, unless both are empty. */
  lemma DocsPath(slugify: string -> string, rest: seq<string>, parsed: ParsedPath)
    requires slugify("docs") == "docs"
    requires rest == [] || SlugDir(slugify, rest) != ""
    ensures ComputePath(slugify, ["docs"] + rest, parsed) ==
      if rest == [] && SlugName(slugify, parsed) == "index" then "docs"
      else "docs/" + ComputePath(slugify, rest, parsed)
  {
    SlugDirDocs(slugify, rest);
    var file := SlugName(slugify, parsed);
    if rest != [] && file != "index" {
      assert "docs/" + SlugDir(slugify, rest) + "/" + file == "docs/" + (SlugDir(slugify, rest) + "/" + file);
    }
  }

  /** The directory of `docs/…` is `docs` followed by the directory of the rest. */
  lemma SlugDirDocs(slugify: string -> string, rest: seq<string>)
    requires slugify("docs") == "docs"
    ensures SlugDir(slugify, ["docs"] + rest) == if rest == [] then "docs" else "docs/" + SlugDir(slugify, rest)
  {
    var segments := SlugSegments(slugify, ["docs"] + rest);
    assert SlugSegment(slugify, "docs") == "docs";
    assert segments == ["docs"] + SlugSegments(slugify, rest);
    assert segments[1..] == SlugSegments(slugify, rest);
  }

  /**
   * Processing through the example pipeline keeps each record's identity,
   * type, date, fields and body, and rewrites only its path and sections.
   */
  lemma DocProcessKeepsIdentity(p: ContentedPipeline, rootPath: string, file: string, modifiedDate: int)
    requires p.pipeline.transform == Some(DocTransform)
    ensures var contents := p.processFileIndex(NewFileIndex(p.foreign, p.pipeline.typeName, rootPath, file, modifiedDate), rootPath, file);
      var r := p.Process(rootPath, file, modifiedDate);
      contents.Some? ==>
        && |r| == |contents.value|
        && forall i :: 0 <= i < |r| ==>
             && r[i].id == contents.value[i].id && r[i].typeName == contents.value[i].typeName
             && r[i].modifiedDate == contents.value[i].modifiedDate
             && r[i].fields == contents.value[i].fields && r[i].content == contents.value[i].content
             && r[i].path == RewriteDocsPrefix(contents.value[i].path)
             && r[i].sections == SliceFrom(contents.value[i].sections, 1)
  {
  }
}
