/** Ruby's `File.basename(path)` on a Unix system (no suffix argument, `/` the
    only separator): the last component of the path, ignoring trailing slashes;
    `"/"` for a path made of slashes only, and `""` for the empty path. */
module Paths {

  /** `s` without the slashes at its end. */
  function StripTrailingSlashes(s: string): (r: string)
    ensures r <= s
    ensures r == [] || r[|r| - 1] != '/'
    ensures forall i :: |r| <= i < |s| ==> s[i] == '/'
    decreases |s|
  {
    if s != [] && s[|s| - 1] == '/' then StripTrailingSlashes(s[..|s| - 1]) else s
  }

  /** The longest suffix of `s` that holds no slash. */
  function LastSegment(s: string): string
    decreases |s|
  {
    if s == [] || s[|s| - 1] == '/' then [] else LastSegment(s[..|s| - 1]) + [s[|s| - 1]]
  }

  /** The last segment is a slash-free suffix, and a slash comes right before
      it unless it is the whole string. */
  lemma {:induction false} LastSegmentShape(s: string)
    ensures var r := LastSegment(s);
      && '/' !in r
      && |r| <= |s| && s[|s| - |r|..] == r
      && (|r| < |s| ==> s[|s| - |r| - 1] == '/')
    decreases |s|
  {
    if s != [] && s[|s| - 1] != '/' {
      var init := LastSegment(s[..|s| - 1]);
      LastSegmentShape(s[..|s| - 1]);
      assert s[..|s| - 1][|s| - 1 - |init|..] == s[|s| - 1 - |init|..|s| - 1];
      assert s[|s| - |init| - 1..] == s[|s| - 1 - |init|..|s| - 1] + [s[|s| - 1]];
    }
  }

  /** `File.basename(path)`. */
  function Basename(path: string): (name: string)
    ensures name == [] <==> path == []
    ensures name == "/" || '/' !in name
  {
    var t := StripTrailingSlashes(path);
    if t == [] then (if path == [] then [] else "/") else LastSegmentShape(t); LastSegment(t)
  }

  /** A path that ends in a slash-free component names that component. */
  lemma LastSegmentOfChild(dir: string, name: string)
    requires '/' !in name
    ensures LastSegment(dir + "/" + name) == name
  {
    LastSegmentAppend(dir + "/", name);
  }

  /** One more slash-free character extends the last component by it. */
  lemma LastSegmentSnoc(t: string, c: char)
    requires c != '/'
    ensures LastSegment(t + [c]) == LastSegment(t) + [c]
  {
    var s := t + [c];
    assert s[..|s| - 1] == t;
    assert s[|s| - 1] == c;
  }

  /** Appending a slash-free tail extends the last component by it. */
  lemma {:induction false} LastSegmentAppend(a: string, b: string)
    requires '/' !in b
    ensures LastSegment(a + b) == LastSegment(a) + b
    decreases |b|
  {
    if b == [] {
      assert a + b == a;
    } else {
      var b' := b[..|b| - 1];
      var c := b[|b| - 1];
      assert c in b;
      assert b == b' + [c];
      assert '/' !in b' by {
        forall x | x in b' ensures x in b {
          var i :| 0 <= i < |b'| && b'[i] == x;
          assert b[i] == x;
        }
      }
      LastSegmentAppend(a, b');
      assert a + b == (a + b') + [c];
      LastSegmentSnoc(a + b', c);
      assert LastSegment(a) + b' + [c] == LastSegment(a) + b;
    }
  }

  /** The basename of `dir/name` is `name` when `name` is a non-empty
      component. */
  lemma BasenameOfChild(dir: string, name: string)
    requires name != [] && '/' !in name
    ensures Basename(dir + "/" + name) == name
  {
    var s := dir + "/" + name;
    assert s[|s| - 1] == name[|name| - 1];
    assert StripTrailingSlashes(s) == s;
    LastSegmentOfChild(dir, name);
  }

  /** A path without slashes is its own basename. */
  lemma BasenameOfPlainName(name: string)
    requires '/' !in name
    ensures Basename(name) == name
  {
    if name != [] {
      assert name[|name| - 1] in name;
      assert StripTrailingSlashes(name) == name;
      LastSegmentAppend([], name);
      assert [] + name == name;
    }
  }

  /** Taking the basename twice changes nothing. */
  lemma BasenameIdempotent(path: string)
    ensures Basename(Basename(path)) == Basename(path)
  {
    var name := Basename(path);
    if name == "/" {
      assert StripTrailingSlashes(name) == [];
    } else {
      BasenameOfPlainName(name);
    }
  }

  /** Trailing slashes do not change the basename of a non-empty path. */
  lemma BasenameIgnoresTrailingSlash(path: string)
    requires path != []
    ensures Basename(path + "/") == Basename(path)
  {
    var s := path + "/";
    assert s[..|s| - 1] == path;
  }

  /** The basename is `"/"` exactly for a non-empty path of slashes only. */
  lemma BasenameIsRoot(path: string)
    ensures Basename(path) == "/" <==> path != [] && forall i :: 0 <= i < |path| ==> path[i] == '/'
  {
    var t := StripTrailingSlashes(path);
    if t != [] {
      var r := LastSegment(t);
      LastSegmentShape(t);
      assert r != [] by {
        assert t[|t| - 1] != '/';
      }
      assert t[|t| - 1] == path[|t| - 1];
      assert r[0] != '/' by {
        assert r[0] in r;
      }
    }
  }
}
