/** "file:tag" names: split at the first ':', joined again for Storage. */
module FileTags {
  import opened Common

  function Colon(): char -> bool { (c: char) => c == ':' }

  /** The file and tag of a name; None when it has no ':'. */
  function Split(name: string): Option<(string, string)> {
    match First(name, Colon())
    case None => None
    case Some(k) => Some((name[..k], name[k + 1..]))
  }

  // sprintf "%s:%s"
  function Join(file: string, tag: string): string {
    file + ":" + tag
  }

  /** Splitting fails exactly on names without ':'; otherwise joining gives the name back, and the file
      part holds no ':'. */
  lemma SplitParts(name: string)
    ensures Split(name).None? <==> ':' !in name
    ensures Split(name).Some? ==> Join(Split(name).value.0, Split(name).value.1) == name && ':' !in Split(name).value.0
  {
    FirstIsFirst(name, Colon());
    if Split(name).Some? {
      var k := First(name, Colon()).value;
      assert name == name[..k] + [name[k]] + name[k + 1..];
      forall i | 0 <= i < k ensures name[..k][i] != ':' {
        assert Colon()(name[i]) == (name[i] == ':');
      }
    }
  }

  /** A joined name splits back into the same file and tag if and only if the file has no ':'; the tag
      may have any. */
  lemma JoinedSplitsBack(file: string, tag: string)
    ensures Split(Join(file, tag)) == Some((file, tag)) <==> ':' !in file
  {
    var name := Join(file, tag);
    var n := |file|;
    SplitParts(name);
    if ':' !in file {
      FirstIsFirst(name, Colon());
      assert Colon()(name[n]);
      assert forall i :: 0 <= i < n ==> name[i] == file[i];
      assert name[..n] == file && name[n + 1..] == tag;
    }
  }

  /** File:tag identity survives the wire: what a Worker splits from an instruction, joins and sends, is
      what Storage splits again. */
  lemma IdentitySurvives(argument: string)
    requires Split(argument).Some?
    ensures var (file, tag) := Split(argument).value; Split(Join(file, tag)) == Some((file, tag))
  {
    SplitParts(argument);
    JoinedSplitsBack(Split(argument).value.0, Split(argument).value.1);
  }

  // separar_FileTag and split_file_tag
  method SplitName(name: string) returns (rc: int, file: string, tag: string)
    ensures rc == (if ':' in name then 0 else -1)
    ensures rc == 0 ==> Split(name) == Some((file, tag)) && name == Join(file, tag)
  {
    SplitParts(name);
    var k := 0;
    while k < |name| && name[k] != ':'
      invariant 0 <= k <= |name|
      invariant First(name[..k], Colon()).None?
    {
      assert name[..k + 1][..k] == name[..k];
      k := k + 1;
    }
    if k == |name| {
      assert name[..k] == name;
      return -1, "", "";
    }
    assert name[..k + 1][..k] == name[..k];
    FirstOfPrefix(name, k + 1, Colon());
    return 0, name[..k], name[k + 1..];
  }
}
