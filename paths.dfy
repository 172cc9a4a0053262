/** Path strings: splitting on a separator (android::base::Split with a
    single delimiter) and the completion-marker path of an install directory. */
module Paths {

  /** The pieces of s between occurrences of sep, empty pieces included; never empty. */
  function Split(s: string, sep: char): (parts: seq<string>)
    ensures |parts| >= 1
    decreases |s|
  {
    if s == [] then [[]]
    else
      var rest := Split(s[1..], sep);
      if s[0] == sep then [[]] + rest
      else [[s[0]] + rest[0]] + rest[1..]
  }

  /** The pieces joined back with sep between them. */
  function Join(parts: seq<string>, sep: char): string
    decreases |parts|
  {
    if |parts| <= 1 then (if parts == [] then [] else parts[0])
    else parts[0] + [sep] + Join(parts[1..], sep)
  }

  function Last<T>(s: seq<T>): T
    requires s != []
  {
    s[|s| - 1]
  }

  /** Joining the pieces gives back the string, and no piece holds the separator. */
  lemma {:induction false} SplitJoin(s: string, sep: char)
    ensures Join(Split(s, sep), sep) == s
    ensures forall i :: 0 <= i < |Split(s, sep)| ==> sep !in Split(s, sep)[i]
    decreases |s|
  {
    if s != [] {
      var rest := Split(s[1..], sep);
      SplitJoin(s[1..], sep);
      if s[0] == sep {
        assert Split(s, sep) == [[]] + rest;
        assert ([[]] + rest)[1..] == rest;
        assert Join([[]] + rest, sep) == [] + [sep] + Join(rest, sep);
        assert [sep] + s[1..] == s;
      } else {
        var parts := [[s[0]] + rest[0]] + rest[1..];
        assert Split(s, sep) == parts;
        if |rest| == 1 {
          assert Join(parts, sep) == [s[0]] + rest[0];
          assert Join(rest, sep) == rest[0];
        } else {
          assert parts[1..] == rest[1..];
          assert Join(rest, sep) == rest[0] + [sep] + Join(rest[1..], sep);
          assert Join(parts, sep) == [s[0]] + rest[0] + [sep] + Join(rest[1..], sep);
        }
        assert [s[0]] + s[1..] == s;
        forall i | 0 <= i < |parts| ensures sep !in parts[i] {
          if i > 0 {
            assert parts[i] == rest[i];
          } else {
            assert sep !in rest[0];
          }
        }
      }
    }
  }

  /** A string without the separator is a single piece. */
  lemma {:induction false} SplitNoSep(s: string, sep: char)
    requires sep !in s
    ensures Split(s, sep) == [s]
    decreases |s|
  {
    if s != [] {
      assert sep !in s[1..];
      SplitNoSep(s[1..], sep);
      assert [s[0]] + s[1..] == s;
    }
  }

  /** The last piece is what follows the last separator. */
  lemma {:induction false} SplitLast(p: string, sep: char, name: string)
    requires sep !in name
    ensures |Split(p + [sep] + name, sep)| >= 2
    ensures Last(Split(p + [sep] + name, sep)) == name
    decreases |p|
  {
    var s := p + [sep] + name;
    if p == [] {
      assert s == [sep] + name;
      assert s[1..] == name;
      SplitNoSep(name, sep);
    } else {
      assert s[1..] == p[1..] + [sep] + name;
      SplitLast(p[1..], sep, name);
    }
  }

  /** string::substr(0, size() - 1): drops the last character; the
      empty string, whose size()-1 is npos, is kept whole. */
  function DropLast(s: string): string
  {
    if s == [] then s else s[..|s| - 1]
  }

  /** GsiService::GetCompleteIndication: the completion marker named after
      the directory's last component. */
  function GetCompleteIndication(installation: string): (marker: string)
    ensures |marker| >= 23 && marker[..14] == "/metadata/gsi/" && marker[|marker| - 9..] == "/complete"
    ensures '/' !in marker[14..|marker| - 9]
  {
    var parts := Split(DropLast(installation), '/');
    SplitJoin(DropLast(installation), '/');
    var name := Last(parts);
    var marker := "/metadata/gsi/" + name + "/complete";
    assert marker[14..|marker| - 9] == name;
    marker
  }

  /** For a directory ending in a slash, the marker is named after its last component. */
  lemma CompleteIndicationOfDir(p: string, name: string)
    requires '/' !in name
    ensures GetCompleteIndication(p + "/" + name + "/") == "/metadata/gsi/" + name + "/complete"
  {
    var dir := p + "/" + name + "/";
    assert DropLast(dir) == p + ['/'] + name;
    SplitLast(p, '/', name);
  }

  /** Two directories with different last components never share a completion marker. */
  lemma CompleteIndicationDistinct(p1: string, name1: string, p2: string, name2: string)
    requires '/' !in name1 && '/' !in name2 && name1 != name2
    ensures GetCompleteIndication(p1 + "/" + name1 + "/") != GetCompleteIndication(p2 + "/" + name2 + "/")
  {
    CompleteIndicationOfDir(p1, name1);
    CompleteIndicationOfDir(p2, name2);
    var a := "/metadata/gsi/" + name1 + "/complete";
    var b := "/metadata/gsi/" + name2 + "/complete";
    assert a[14..|a| - 9] == name1;
    assert b[14..|b| - 9] == name2;
  }
}
