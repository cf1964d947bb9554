/** How a transfer derives the names it writes: the sanitised final file name, the
    in-progress temporary name, their paths inside the output directory, and the
    sidecar names the metadata extractor leaves in the working directory. */
module Naming {
  import opened Common

  const AudioExtension := ".mp3"
  const PartialSuffix := ".scpydownload"
  const SidecarSuffix := ".info.json"

  /** Python's `str.replace(from, to)` for one-character arguments. */
  function Replace(s: string, from: char, to: char): (r: string)
    ensures |r| == |s|
    ensures forall i :: 0 <= i < |s| ==> r[i] == (if s[i] == from then to else s[i])
  {
    if s == [] then [] else [if s[0] == from then to else s[0]] + Replace(s[1..], from, to)
  }

  /** The final file name: the title with every path separator made an underscore,
      then the audio extension. */
  function FileName(title: string): string
  {
    Replace(title, '/', '_') + AudioExtension
  }

  /** The final name holds no separator, keeps every other character of the title in
      place, and ends with the extension. */
  lemma FileNameRule(title: string)
    ensures '/' !in FileName(title)
    ensures |FileName(title)| == |title| + |AudioExtension|
    ensures EndsWith(FileName(title), AudioExtension)
    ensures forall i :: 0 <= i < |title| ==>
              FileName(title)[i] == (if title[i] == '/' then '_' else title[i])
  {
    var r := FileName(title);
    forall i | 0 <= i < |r| ensures r[i] != '/' {
      if i < |title| { assert r[i] == Replace(title, '/', '_')[i]; }
    }
  }

  /** A title without separators keeps every character. */
  lemma FileNameKeepsCleanTitle(title: string)
    requires '/' !in title
    ensures FileName(title) == title + AudioExtension
  {
    var r := FileName(title);
    FileNameRule(title);
    assert r[..|title|] == title by {
      forall i | 0 <= i < |title| ensures r[i] == title[i] { assert title[i] != '/'; }
    }
    assert r == r[..|title|] + r[|title|..];
  }

  /** `os.path.join(dir, name)` for a `name` that does not start with a separator. */
  function Join(dir: string, name: string): string
  {
    if dir == "" then name
    else if dir[|dir| - 1] == '/' then dir + name
    else dir + "/" + name
  }

  /** The joined path is the directory, one separator unless the directory already ends
      with one, and the name. */
  lemma JoinRule(dir: string, name: string)
    ensures EndsWith(Join(dir, name), name)
    ensures dir == "" ==> Join(dir, name) == name
    ensures dir != "" ==> var r := Join(dir, name);
              |r| == |dir| + |name| + (if dir[|dir| - 1] == '/' then 0 else 1) &&
              r[..|dir|] == dir && r[|r| - |name| - 1] == '/'
  {
  }

  /** Where the finished download is renamed to. */
  function FinalPath(dir: string, title: string): string
  {
    Join(dir, FileName(title))
  }

  /** Where the bytes are written while the transfer runs. */
  function TempPath(dir: string, title: string): string
  {
    Join(dir, FileName(title) + PartialSuffix)
  }

  /** The temporary file sits beside the final one: same directory, same name plus the
      in-progress suffix. */
  lemma TempBesideFinal(dir: string, title: string)
    ensures TempPath(dir, title) == FinalPath(dir, title) + PartialSuffix
    ensures EndsWith(TempPath(dir, title), PartialSuffix)
  {
  }

  /** A name the extractor's metadata mode produces. */
  predicate IsSidecar(name: string)
  {
    EndsWith(name, SidecarSuffix)
  }

  /** The listing filtered to the sidecar names, in listing order. */
  function Sidecars(listing: seq<string>): seq<string>
  {
    if listing == [] then []
    else if IsSidecar(listing[0]) then [listing[0]] + Sidecars(listing[1..])
    else Sidecars(listing[1..])
  }

  /** The filter keeps only sidecar names from the listing, is empty exactly when the
      listing holds none, and starts with the first sidecar the listing shows. */
  lemma {:induction false} SidecarsFilter(listing: seq<string>)
    ensures var r := Sidecars(listing);
            forall k :: 0 <= k < |r| ==> IsSidecar(r[k]) && r[k] in listing
    ensures Sidecars(listing) == [] <==> forall k :: 0 <= k < |listing| ==> !IsSidecar(listing[k])
    ensures var r := Sidecars(listing);
            r != [] ==> exists k :: 0 <= k < |listing| && listing[k] == r[0] &&
                                    forall j :: 0 <= j < k ==> !IsSidecar(listing[j])
  {
    if listing != [] {
      var tail := listing[1..];
      var rest := Sidecars(tail);
      SidecarsFilter(tail);
      assert forall k :: 0 <= k < |tail| ==> tail[k] == listing[k + 1];
      if !IsSidecar(listing[0]) && rest != [] {
        var k :| 0 <= k < |tail| && tail[k] == rest[0] && forall j :: 0 <= j < k ==> !IsSidecar(tail[j]);
        assert listing[k + 1] == rest[0];
        forall j | 0 <= j < k + 1 ensures !IsSidecar(listing[j]) {
          if j > 0 { assert listing[j] == tail[j - 1]; }
        }
      }
    }
  }

  /** The three names a transfer touches never coincide: the last character of the
      final path is '3', of the temporary path 'd', of a sidecar 'n'. */
  lemma PathsDistinct(dir: string, title: string, sidecar: string)
    requires IsSidecar(sidecar)
    ensures FinalPath(dir, title) != TempPath(dir, title)
    ensures sidecar != FinalPath(dir, title)
    ensures sidecar != TempPath(dir, title)
  {
    var f, t := FinalPath(dir, title), TempPath(dir, title);
    JoinRule(dir, FileName(title));
    JoinRule(dir, FileName(title) + PartialSuffix);
    assert f[|f| - 1] == '3';
    assert t[|t| - 1] == 'd';
    assert sidecar[|sidecar| - 1] == 'n';
  }
}
