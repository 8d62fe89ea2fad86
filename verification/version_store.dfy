/**
  The version store: saved PDFs live in one directory as
  `resume_<tag>_<uid>.pdf` (or `resume_<uid>.pdf`) next to a sidecar
  `<name>.json` holding `{filename, created, size_bytes}`.  Saving writes
  both files; listing reads every `*.pdf` newest first and rebuilds the
  record from the file's own stats when the sidecar is missing.

  The directory is a class whose fields are the files in it: the `*.pdf`
  files with their contents and modification times, and the sidecars as the
  records they hold.  The random uid and the clock are parameters.
*/
module VersionStore {
  import opened Common

  // ---------------------------------------------------------------------
  // Tag sanitisation and file names
  // ---------------------------------------------------------------------

  /** `str.isalnum`, restricted to ASCII letters and digits. */
  predicate IsAsciiAlnum(c: char) {
    ('a' <= c <= 'z') || ('A' <= c <= 'Z') || ('0' <= c <= '9')
  }

  /** The characters a tag may keep. */
  predicate IsSafeTagChar(c: char) {
    IsAsciiAlnum(c) || c == '-' || c == '_'
  }

  predicate AllSafe(s: string) {
    forall i :: 0 <= i < |s| ==> IsSafeTagChar(s[i])
  }

  /** The tag with every character other than alphanumerics, `-` and `_` removed. */
  function SanitizeTag(tag: string): (r: string)
    ensures AllSafe(r)
    ensures |r| <= |tag|
    decreases |tag|
  {
    if tag == [] then []
    else (if IsSafeTagChar(tag[0]) then [tag[0]] else []) + SanitizeTag(tag[1..])
  }

  /** Sanitising works piece by piece: it keeps the order of what it keeps. */
  lemma {:induction false} SanitizeConcat(a: string, b: string)
    ensures SanitizeTag(a + b) == SanitizeTag(a) + SanitizeTag(b)
    decreases |a|
  {
    if a != [] {
      var h := if IsSafeTagChar(a[0]) then [a[0]] else [];
      assert (a + b)[0] == a[0] && (a + b)[1..] == a[1..] + b;
      SanitizeConcat(a[1..], b);
      calc {
        SanitizeTag(a + b);
        h + SanitizeTag(a[1..] + b);
        h + (SanitizeTag(a[1..]) + SanitizeTag(b));
        (h + SanitizeTag(a[1..])) + SanitizeTag(b);
        SanitizeTag(a) + SanitizeTag(b);
      }
    } else {
      assert a + b == b;
    }
  }

  /** A tag that is already safe is kept whole. */
  lemma {:induction false} SanitizeKeepsSafe(tag: string)
    requires AllSafe(tag)
    ensures SanitizeTag(tag) == tag
    decreases |tag|
  {
    if tag != [] {
      SanitizeKeepsSafe(tag[1..]);
    }
  }

  /** Sanitising twice changes nothing more. */
  lemma SanitizeIdempotent(tag: string)
    ensures SanitizeTag(SanitizeTag(tag)) == SanitizeTag(tag)
  {
    SanitizeKeepsSafe(SanitizeTag(tag));
  }

  /** A tag made only of unsafe characters vanishes entirely. */
  lemma {:induction false} SanitizeDropsUnsafe(tag: string)
    requires forall i :: 0 <= i < |tag| ==> !IsSafeTagChar(tag[i])
    ensures SanitizeTag(tag) == []
    decreases |tag|
  {
    if tag != [] {
      SanitizeDropsUnsafe(tag[1..]);
    }
  }

  const FilePrefix: string := "resume_"
  const PdfSuffix: string := ".pdf"
  const SidecarSuffix: string := ".json"

  predicate EndsWith(s: string, suffix: string) {
    |s| >= |suffix| && s[|s| - |suffix|..] == suffix
  }

  /** Python truthiness of `version_tag`: absent or empty means "no tag". */
  predicate HasTag(tag: Option<string>) {
    tag.Some? && tag.value != []
  }

  /** The artifact's file name, built from the optional tag and the uid. */
  function VersionFilename(tag: Option<string>, uid: string): (r: string)
    ensures |r| >= |FilePrefix| + |PdfSuffix|
    ensures r[..|FilePrefix|] == FilePrefix && EndsWith(r, PdfSuffix)
    ensures forall i :: 0 <= i < |r| ==> IsSafeTagChar(r[i]) || r[i] == '.' || r[i] in uid
  {
    if HasTag(tag) then FilePrefix + SanitizeTag(tag.value) + "_" + uid + PdfSuffix
    else FilePrefix + uid + PdfSuffix
  }

  /** The two shapes of a name; a tag that sanitises to nothing still takes the tagged shape. */
  lemma FilenameShape(tag: Option<string>, uid: string)
    ensures !HasTag(tag) ==> VersionFilename(tag, uid) == "resume_" + uid + ".pdf"
    ensures HasTag(tag) ==> VersionFilename(tag, uid) == "resume_" + SanitizeTag(tag.value) + "_" + uid + ".pdf"
    ensures HasTag(tag) && SanitizeTag(tag.value) == [] ==> VersionFilename(tag, uid) == "resume__" + uid + ".pdf"
  {
  }

  /** A tag cannot smuggle a path separator into the name: only the uid could. */
  lemma FilenameStaysInDirectory(tag: Option<string>, uid: string)
    requires '/' !in uid
    ensures '/' !in VersionFilename(tag, uid)
  {
  }

  /**
    Equal names mean equal uids whatever the two tags were, as long as the
    uids have the same length (every `str(uuid4())` has 36 characters): the
    uid is read off just before the `.pdf` suffix.
  */
  lemma FilenameDeterminesUid(t1: Option<string>, t2: Option<string>, u1: string, u2: string)
    requires |u1| == |u2|
    requires VersionFilename(t1, u1) == VersionFilename(t2, u2)
    ensures u1 == u2
  {
    var n := VersionFilename(t1, u1);
    var h1 := if HasTag(t1) then FilePrefix + SanitizeTag(t1.value) + "_" else FilePrefix;
    var h2 := if HasTag(t2) then FilePrefix + SanitizeTag(t2.value) + "_" else FilePrefix;
    assert n == h1 + u1 + PdfSuffix && n == h2 + u2 + PdfSuffix;
    assert u1 == n[|n| - 4 - |u1|..|n| - 4];
    assert u2 == n[|n| - 4 - |u2|..|n| - 4];
  }

  /** Without the equal-length condition, a tagged and an untagged name can coincide. */
  lemma TagsCanCollide()
    ensures VersionFilename(Some("a"), "b") == VersionFilename(None, "a_b")
  {
    assert "a"[1..] == [];
    assert SanitizeTag("a") == "a";
  }

  /** The tail ` c!` of the example tag keeps only `c`. */
  lemma ExampleTagTail()
    ensures SanitizeTag(" c!") == "c"
  {
    assert "!"[1..] == [] && "c!"[1..] == "!" && " c!"[1..] == "c!";
    assert SanitizeTag("!") == [];
    assert SanitizeTag("c!") == "c";
  }

  /** The example tag `a/b c!` sanitises to `abc`. */
  lemma ExampleTagSanitized()
    ensures SanitizeTag("a/b c!") == "abc"
  {
    ExampleTagTail();
    assert "b c!"[1..] == " c!" && "/b c!"[1..] == "b c!" && "a/b c!"[1..] == "/b c!";
    assert SanitizeTag("b c!") == "bc";
    assert SanitizeTag("/b c!") == "bc";
  }

  /** The name for a tag such as `a/b c!` keeps only `abc` from it. */
  lemma ExampleTagName(uid: string)
    ensures VersionFilename(Some("a/b c!"), uid) == "resume_abc_" + uid + ".pdf"
  {
    ExampleTagSanitized();
    assert HasTag(Some("a/b c!"));
    assert FilePrefix + "abc" + "_" == "resume_abc_";
  }

  /** The sidecar's name sits next to the artifact's. */
  function SidecarName(filename: string): (r: string)
    ensures |r| == |filename| + |SidecarSuffix| && r[..|filename|] == filename && EndsWith(r, SidecarSuffix)
  {
    filename + SidecarSuffix
  }

  // ---------------------------------------------------------------------
  // Directory contents and listing
  // ---------------------------------------------------------------------

  /** A sidecar's record; `created` is a timestamp in seconds (its ISO-8601 text is not modelled). */
  datatype Meta = Meta(filename: string, created: int, sizeBytes: int)

  /** A `*.pdf` file: its bytes and its modification time. */
  datatype PdfFile = PdfFile(content: seq<Byte>, mtime: int)

  /** The record listed for the PDF `name`: its sidecar if one exists, else one rebuilt from stats. */
  function RecordFor(pdfs: map<string, PdfFile>, sidecars: map<string, Meta>, name: string): (m: Meta)
    requires name in pdfs
    ensures SidecarName(name) !in sidecars ==>
              m.filename == name && m.created == pdfs[name].mtime && m.sizeBytes == |pdfs[name].content|
    ensures SidecarName(name) in sidecars ==> m == sidecars[SidecarName(name)]
  {
    if SidecarName(name) in sidecars then sidecars[SidecarName(name)]
    else Meta(name, pdfs[name].mtime, |pdfs[name].content|)
  }

  predicate Distinct(names: seq<string>) {
    forall i, j :: 0 <= i < j < |names| ==> names[i] != names[j]
  }

  /** `names` lists every PDF of the directory exactly once, by non-increasing mtime. */
  ghost predicate NewestFirst(pdfs: map<string, PdfFile>, names: seq<string>) {
    && Distinct(names)
    && (forall n :: n in pdfs <==> n in names)
    && (forall i, j :: 0 <= i < j < |names| ==> pdfs[names[j]].mtime <= pdfs[names[i]].mtime)
  }

  /** Some element of a non-empty set of PDFs has the largest mtime. */
  lemma {:induction false} NewestExists(pdfs: map<string, PdfFile>, s: set<string>)
    requires s != {} && s <= pdfs.Keys
    ensures exists p :: p in s && forall q :: q in s ==> pdfs[q].mtime <= pdfs[p].mtime
    decreases |s|
  {
    var x :| x in s;
    if s != {x} {
      var rest := s - {x};
      NewestExists(pdfs, rest);
      var p :| p in rest && forall q :: q in rest ==> pdfs[q].mtime <= pdfs[p].mtime;
      if pdfs[p].mtime < pdfs[x].mtime {
        assert forall q :: q in s ==> pdfs[q].mtime <= pdfs[x].mtime;
      } else {
        assert forall q :: q in s ==> pdfs[q].mtime <= pdfs[p].mtime;
      }
    }
  }

  /** A list without repetition has as many elements as the set of its elements. */
  lemma {:induction false} DistinctCard(names: seq<string>)
    requires Distinct(names)
    ensures |set n | n in names| == |names|
    decreases |names|
  {
    if names != [] {
      var rest := names[1..];
      DistinctCard(rest);
      assert (set n | n in names) == (set n | n in rest) + {names[0]};
      assert names[0] !in rest;
    }
  }

  /** A newest-first listing has exactly one entry per PDF. */
  lemma OnePerPdf(pdfs: map<string, PdfFile>, names: seq<string>)
    requires NewestFirst(pdfs, names)
    ensures |names| == |pdfs|
  {
    DistinctCard(names);
    assert (set n | n in names) == pdfs.Keys;
  }

  /** A just-saved artifact is listed with its own name, time and size. */
  lemma SavedRecordListed(pdfs: map<string, PdfFile>, sidecars: map<string, Meta>,
                          name: string, pdf: seq<Byte>, now: int)
    ensures var pdfs', sidecars' := pdfs[name := PdfFile(pdf, now)], sidecars[SidecarName(name) := Meta(name, now, |pdf|)];
            name in pdfs' && RecordFor(pdfs', sidecars', name) == Meta(name, now, |pdf|)
  {
  }

  /** After a save under a new name, a newest-first listing has one more entry, among them the new name. */
  lemma SaveListedOnce(pdfs: map<string, PdfFile>, name: string, file: PdfFile, names: seq<string>)
    requires name !in pdfs
    requires NewestFirst(pdfs[name := file], names)
    ensures |names| == |pdfs| + 1
    ensures name in names
  {
    OnePerPdf(pdfs[name := file], names);
    assert pdfs[name := file].Keys == pdfs.Keys + {name};
  }

  /** A PDF's name is never the name of a sidecar. */
  lemma PdfIsNoSidecar(n: string, other: string)
    requires EndsWith(n, PdfSuffix)
    ensures n != SidecarName(other)
  {
    var m := SidecarName(other);
    assert n[|n| - 1] == n[|n| - 4..][3] == 'f';
    assert m[|m| - 1] == m[|m| - 5..][4] == 'n';
  }

  class VersionDir {
    /** `VERSIONS_DIR.exists()` */
    var present: bool
    /** The files matching `*.pdf`. */
    var pdfs: map<string, PdfFile>
    /** The `<name>.pdf.json` sidecars, as the records they hold, by file name. */
    var sidecars: map<string, Meta>

    ghost predicate Valid()
      reads this
    {
      forall n :: n in pdfs ==> EndsWith(n, PdfSuffix)
    }

    /** `VERSIONS_DIR.mkdir(exist_ok=True)` on a fresh directory. */
    constructor ()
      ensures Valid() && present && pdfs == map[] && sidecars == map[]
    {
      present := true;
      pdfs := map[];
      sidecars := map[];
    }

    /** `VERSIONS_DIR.mkdir(exist_ok=True)` on a directory that already holds earlier versions. */
    constructor Reopen(existing: map<string, PdfFile>, existingSidecars: map<string, Meta>)
      requires forall n :: n in existing ==> EndsWith(n, PdfSuffix)
      ensures Valid() && present && pdfs == existing && sidecars == existingSidecars
    {
      present := true;
      pdfs := existing;
      sidecars := existingSidecars;
    }

    /**
      `save_version`.  Writes the artifact and its sidecar and returns the
      artifact's name; a missing directory makes the write fail, which is
      returned as `None` with nothing written.
    */
    method SaveVersion(pdf: seq<Byte>, tag: Option<string>, uid: string, now: int)
      returns (saved: Option<string>)
      requires Valid()
      modifies this
      ensures Valid() && present == old(present)
      ensures !present ==> saved.None? && pdfs == old(pdfs) && sidecars == old(sidecars)
      ensures present ==>
                && saved == Some(VersionFilename(tag, uid))
                && pdfs == old(pdfs)[saved.value := PdfFile(pdf, now)]
                && sidecars == old(sidecars)[SidecarName(saved.value) := Meta(saved.value, now, |pdf|)]
      ensures present && VersionFilename(tag, uid) !in old(pdfs) ==> |pdfs| == |old(pdfs)| + 1
    {
      if !present {
        return None;
      }
      var filename := VersionFilename(tag, uid);
      assert filename !in pdfs ==> pdfs[filename := PdfFile(pdf, now)].Keys == pdfs.Keys + {filename};
      pdfs := pdfs[filename := PdfFile(pdf, now)];
      sidecars := sidecars[SidecarName(filename) := Meta(filename, now, |pdf|)];
      saved := Some(filename);
    }

    /**
      `sorted(VERSIONS_DIR.glob("*.pdf"), key=mtime, reverse=True)`: the glob's
      order is arbitrary, so each step takes any remaining file with the
      largest mtime; ties come out in no specified order.
    */
    method NewestFirstOrder() returns (order: seq<string>)
      ensures NewestFirst(pdfs, order)
    {
      var remaining := pdfs.Keys;
      order := [];
      while remaining != {}
        invariant remaining <= pdfs.Keys
        invariant Distinct(order)
        invariant forall n :: n in pdfs <==> n in order || n in remaining
        invariant forall n :: n in order ==> n !in remaining
        invariant forall i, j :: 0 <= i < j < |order| ==> pdfs[order[j]].mtime <= pdfs[order[i]].mtime
        invariant forall i, n :: 0 <= i < |order| && n in remaining ==> pdfs[n].mtime <= pdfs[order[i]].mtime
        decreases |remaining|
      {
        NewestExists(pdfs, remaining);
        var p :| p in remaining && forall q :: q in remaining ==> pdfs[q].mtime <= pdfs[p].mtime;
        order := order + [p];
        remaining := remaining - {p};
      }
    }

    /**
      `list_versions`: one record per PDF, newest first.  `names` is the order
      the files were visited in, so the records can be stated against it.
    */
    method ListVersions() returns (items: seq<Meta>, ghost names: seq<string>)
      requires Valid()
      ensures !present ==> items == []
      ensures forall i :: 0 <= i < |names| ==> EndsWith(names[i], PdfSuffix)
      ensures forall i, other :: 0 <= i < |names| ==> names[i] != SidecarName(other)
      ensures present ==> NewestFirst(pdfs, names)
      ensures present ==> |items| == |names|
      ensures present ==> forall i :: 0 <= i < |items| ==> items[i] == RecordFor(pdfs, sidecars, names[i])
    {
      items := [];
      names := [];
      if !present {
        return;
      }
      var order := NewestFirstOrder();
      for i := 0 to |order|
        invariant |items| == i
        invariant forall k :: 0 <= k < i ==> items[k] == RecordFor(pdfs, sidecars, order[k])
      {
        var p := order[i];
        var meta;
        if SidecarName(p) in sidecars {
          meta := sidecars[SidecarName(p)];
        } else {
          meta := Meta(p, pdfs[p].mtime, |pdfs[p].content|);
        }
        items := items + [meta];
      }
      names := order;
      forall i, other | 0 <= i < |names|
        ensures names[i] != SidecarName(other)
      {
        PdfIsNoSidecar(names[i], other);
      }
    }
  }
}
