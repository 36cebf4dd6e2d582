/** Path mapping: from the absolute path of a directory's synthetic document
    to the package identifier handed to the documentation generator. */
module PackageIds {
  import opened GoPaths

  /** The reserved name of the synthetic document in every directory. */
  const DOC_NAME: string := "godoc"

  /** The directory projected as the filesystem root: the workspace root
      joined with "src". Never empty, so it can serve as a pattern to remove. */
  function SourceRoot(base: string): (first: string)
    ensures first != ""
  {
    Join(base, "src")
  }

  /** File.ReadAll's derivation: remove every occurrence of the source root,
      then every occurrence of "godoc", take the directory part and drop one
      leading separator. */
  function PackageId(first: string, fullPath: string): string {
    var withoutRoot := RemoveAll(fullPath, first);
    var withoutDoc := RemoveAll(withoutRoot, DOC_NAME);
    TrimLeadingSlash(Dir(withoutDoc))
  }

  /** A path holding neither the source root nor "godoc" is only cut to its
      directory part, less one leading separator. */
  lemma PackageIdOfPlainPath(first: string, fullPath: string)
    requires first != ""
    requires !Occurs(first, fullPath) && !Occurs(DOC_NAME, fullPath)
    ensures PackageId(first, fullPath) == TrimLeadingSlash(Dir(fullPath))
  {
    RemoveAllUnchangedIffAbsent(fullPath, first);
    RemoveAllUnchangedIffAbsent(fullPath, DOC_NAME);
  }

  /** PackageId in terms of its three stages. */
  lemma PackageIdStages(first: string, fullPath: string, withoutRoot: string, withoutDoc: string, dir: string)
    requires RemoveAll(fullPath, first) == withoutRoot
    requires RemoveAll(withoutRoot, DOC_NAME) == withoutDoc
    requires Dir(withoutDoc) == dir
    ensures PackageId(first, fullPath) == TrimLeadingSlash(dir)
  {
  }

  lemma Regroup(a: string, b: string, c: string, d: string, e: string)
    ensures a + b + c + d + e == a + (b + c + d + e)
  {
  }

  /** A path that starts with the source root and has no other occurrence of
      it loses exactly that prefix. */
  lemma RemoveSourceRoot(first: string, tail: string)
    requires first != ""
    requires !Occurs(first, tail)
    ensures RemoveAll(first + tail, first) == tail
  {
    RemoveAllLeading(first, tail);
    RemoveAllUnchangedIffAbsent(tail, first);
  }

  /** "godoc" has no separator, so in p + "/godoc" + y, with no "godoc" in p,
      it cannot occur before the separator's end. */
  lemma DocOnlyAfterSlash(p: string, y: string)
    requires !Occurs(DOC_NAME, p)
    ensures forall k :: 0 <= k < |p| + 1 ==> !OccursAt(DOC_NAME, p + "/" + DOC_NAME + y, k)
  {
    var u := p + "/" + DOC_NAME + y;
    forall k | 0 <= k < |p| + 1 ensures !OccursAt(DOC_NAME, u, k) {
      if k + 5 <= |p| {
        assert p[k..k + 5] == u[k..k + 5];
        assert !OccursAt(DOC_NAME, p, k);
      } else if k + 5 <= |u| {
        assert u[k..k + 5][|p| - k] == u[|p|] == '/';
        assert '/' !in DOC_NAME;
      }
    }
  }

  /** Removing "godoc" from p + "/godoc" + y keeps p + "/" and goes on in y. */
  lemma RemoveDocAfter(p: string, y: string)
    requires !Occurs(DOC_NAME, p)
    ensures RemoveAll(p + "/" + DOC_NAME + y, DOC_NAME) == p + "/" + RemoveAll(y, DOC_NAME)
  {
    DocOnlyAfterSlash(p, y);
    RemoveAllAfter(p + "/", DOC_NAME, y);
  }

  /** A leading separator adds no occurrence of "godoc". */
  lemma NoDocAfterSlash(p: string)
    requires !Occurs(DOC_NAME, p)
    ensures !Occurs(DOC_NAME, "/" + p)
  {
    var s := "/" + p;
    assert s[1..] == p;
    assert !OccursAt(DOC_NAME, s, 0) by {
      assert s[0] != DOC_NAME[0];
    }
    OccursInTail(DOC_NAME, s);
  }

  /** Removing the document name from the end of "/" + p + "/godoc" leaves
      "/" + p + "/". */
  lemma RemoveDocName(p: string)
    requires !Occurs(DOC_NAME, p)
    ensures RemoveAll("/" + p + "/" + DOC_NAME, DOC_NAME) == "/" + p + "/"
  {
    var empty: string := [];
    NoDocAfterSlash(p);
    RemoveDocAfter("/" + p, empty);
    assert "/" + p + "/" + DOC_NAME + empty == "/" + p + "/" + DOC_NAME;
    assert "/" + p + "/" + empty == "/" + p + "/";
  }

  /** The directory part of "/" + p + "/" is "/" + p. */
  lemma DirOfTrailing(ps: seq<string>)
    requires |ps| >= 1 && AllNames(ps)
    ensures Dir("/" + JoinParts(ps) + "/") == "/" + JoinParts(ps)
  {
    var s := "/" + JoinParts(ps) + "/";
    assert Dir(s) == Clean(s) by {
      assert LastSlashEnd(s) == |s|;
      assert s[..|s|] == s;
    }
    CleanRootedNamesTrailing(ps);
  }

  /** The document of the directory first/p documents package p, where p is a
      relative path of names in which neither "godoc" nor the source root
      occurs. */
  lemma PackageIdOfSubdir(first: string, ps: seq<string>)
    requires first != ""
    requires |ps| >= 1 && AllNames(ps)
    requires !Occurs(DOC_NAME, JoinParts(ps))
    requires !Occurs(first, "/" + JoinParts(ps) + "/" + DOC_NAME)
    ensures PackageId(first, first + "/" + JoinParts(ps) + "/" + DOC_NAME) == JoinParts(ps)
  {
    var p := JoinParts(ps);
    var tail := "/" + p + "/" + DOC_NAME;
    Regroup(first, "/", p, "/", DOC_NAME);
    RemoveSourceRoot(first, tail);
    RemoveDocName(p);
    DirOfTrailing(ps);
    PackageIdStages(first, first + tail, tail, "/" + p + "/", "/" + p);
    assert TrimLeadingSlash("/" + p) == p;
  }

  /** The directory part of "/" is "/". */
  lemma DirOfSlash()
    ensures Dir("/") == "/"
  {
    assert Split("/") == ["", ""] by {
      assert "/" == "" + "/" + "";
      SplitAtSlash("", "");
    }
  }

  /** Removing "godoc" from "/godoc" leaves "/". */
  lemma RemoveDocFromRoot()
    ensures RemoveAll("/" + DOC_NAME, DOC_NAME) == "/"
  {
    var empty: string := [];
    assert !Occurs(DOC_NAME, empty);
    RemoveDocAfter(empty, empty);
    assert empty + "/" + DOC_NAME + empty == "/" + DOC_NAME;
  }

  /** The document of the source root itself documents the empty identifier,
      the root package. */
  lemma PackageIdOfSourceRoot(first: string)
    requires first != ""
    requires !Occurs(first, "/" + DOC_NAME)
    ensures PackageId(first, first + "/" + DOC_NAME) == ""
  {
    RemoveSourceRoot(first, "/" + DOC_NAME);
    RemoveDocFromRoot();
    DirOfSlash();
    PackageIdStages(first, first + "/" + DOC_NAME, "/" + DOC_NAME, "/", "/");
  }

  lemma SlashesAround(p: string, c: string)
    ensures "/" + (p + "/" + c) + "/" == "/" + p + "/" + c + "/"
    ensures "/" + (p + "/" + c) == "/" + p + "/" + c
  {
  }

  /** The directory part of "/" + p + "/" + c + "/" is "/" + p + "/" + c. */
  lemma DirOfTrailingName(ps: seq<string>, c: string)
    requires |ps| >= 1 && AllNames(ps) && IsName(c)
    ensures Dir("/" + JoinParts(ps) + "/" + c + "/") == "/" + JoinParts(ps) + "/" + c
  {
    JoinPartsAppend(ps, c);
    SlashesAround(JoinParts(ps), c);
    assert AllNames(ps + [c]);
    DirOfTrailing(ps + [c]);
  }

  /** The two groupings of the document path below a directory p/godoc<c>. */
  lemma InnerDocPathShape(first: string, p: string, c: string)
    ensures first + "/" + p + "/" + DOC_NAME + c + "/" + DOC_NAME
         == first + ("/" + p + "/" + DOC_NAME + c + "/" + DOC_NAME)
    ensures "/" + p + "/" + DOC_NAME + c + "/" + DOC_NAME
         == ("/" + p) + "/" + DOC_NAME + (c + "/" + DOC_NAME)
  {
  }

  /** Removing "godoc" from "/" + p + "/godoc" + c + "/godoc" leaves
      "/" + p + "/" + c + "/" when neither p nor c holds "godoc". */
  lemma RemoveInnerDocName(p: string, c: string)
    requires !Occurs(DOC_NAME, p) && !Occurs(DOC_NAME, c)
    ensures RemoveAll("/" + p + "/" + DOC_NAME + c + "/" + DOC_NAME, DOC_NAME) == "/" + p + "/" + c + "/"
  {
    var inner := c + "/" + DOC_NAME;
    InnerDocPathShape("", p, c);
    assert RemoveAll(inner, DOC_NAME) == c + "/" by {
      var empty: string := [];
      RemoveDocAfter(c, empty);
      assert c + "/" + DOC_NAME + empty == inner;
      assert c + "/" + empty == c + "/";
    }
    NoDocAfterSlash(p);
    RemoveDocAfter("/" + p, inner);
  }

  /** The package of directory part of "/" + p + "/" + c + "/" is p + "/" + c. */
  lemma TrimDirOfTrailingName(ps: seq<string>, c: string)
    requires |ps| >= 1 && AllNames(ps) && IsName(c)
    ensures TrimLeadingSlash(Dir("/" + JoinParts(ps) + "/" + c + "/")) == JoinParts(ps) + "/" + c
  {
    DirOfTrailingName(ps, c);
    SlashesAround(JoinParts(ps), c);
  }

  /** Every occurrence of "godoc" is removed, not only the document's own
      name: the document of directory p/godoc<c> (for example a/godocfs)
      documents package p/<c> (a/fs), not the directory it sits in. */
  lemma PackageIdDropsInnerDocName(first: string, ps: seq<string>, c: string)
    requires first != ""
    requires |ps| >= 1 && AllNames(ps) && IsName(c)
    requires !Occurs(DOC_NAME, JoinParts(ps)) && !Occurs(DOC_NAME, c)
    requires !Occurs(first, "/" + JoinParts(ps) + "/" + DOC_NAME + c + "/" + DOC_NAME)
    ensures PackageId(first, first + "/" + JoinParts(ps) + "/" + DOC_NAME + c + "/" + DOC_NAME)
         == JoinParts(ps) + "/" + c
  {
    var p := JoinParts(ps);
    var tail := "/" + p + "/" + DOC_NAME + c + "/" + DOC_NAME;
    var withoutDoc := "/" + p + "/" + c + "/";
    InnerDocPathShape(first, p, c);
    RemoveSourceRoot(first, tail);
    RemoveInnerDocName(p, c);
    TrimDirOfTrailingName(ps, c);
    PackageIdStages(first, first + tail, tail, withoutDoc, Dir(withoutDoc));
  }
}
