/*
 * What a path names, read lexically: the meaning that canonicaliseFileName()
 * (src/os/pl-os.c:1302-1305) keeps while it removes redundant "/", "./" and
 * "x/../".  The path is read one character at a time.  An empty component
 * and "." name nothing; ".." cancels the name before it; a ".." with no name
 * to cancel is the root itself in an absolute path and stays in a relative
 * one; any other component is a name.
 */
module PathMeaning {

  /** A reading of a path: the components that stand so far, and the one being read. */
  datatype Walk = Walk(kept: seq<string>, cur: string)

  const Start: Walk := Walk([], [])

  /** A name: a component that is neither empty, ".", nor "..". */
  predicate IsName(c: string) {
    c != [] && c != "." && c != ".." && '/' !in c
  }

  /** The component being read ends, and takes effect on what stands. */
  function Close(abs: bool, w: Walk): (r: Walk)
    ensures r.cur == []
    ensures w.cur == [] ==> r == w
  {
    var c := w.cur;
    if c == [] || c == "." then Walk(w.kept, [])
    else if c == ".." then
      if |w.kept| > 0 && w.kept[|w.kept| - 1] != ".." then Walk(w.kept[..|w.kept| - 1], [])
      else if abs then Walk(w.kept, [])
      else Walk(w.kept + [".."], [])
    else Walk(w.kept + [c], [])
  }

  /** One character: '/' ends the component, any other extends it. */
  function Step(abs: bool, w: Walk, c: char): Walk {
    if c == '/' then Close(abs, w) else Walk(w.kept, w.cur + [c])
  }

  /** Reading t on from w. */
  function Read(abs: bool, w: Walk, t: string): Walk
    decreases |t|
  {
    if t == [] then w else Read(abs, Step(abs, w, t[0]), t[1..])
  }

  /** The components that the path t names; abs says whether it hangs from the root. */
  function Resolve(abs: bool, t: string): seq<string> {
    Close(abs, Read(abs, Start, t)).kept
  }

  datatype Named = Named(abs: bool, comps: seq<string>)

  /** What the path p names: whether it is absolute, and its components. */
  function Names(p: string): Named {
    var abs := p != [] && p[0] == '/';
    Named(abs, Resolve(abs, p))
  }

  /*****************************************************************
   * Reading, piece by piece
   *****************************************************************/

  /** Reading a + b is reading a, then b. */
  lemma {:induction false} ReadAppend(abs: bool, w: Walk, a: string, b: string)
    ensures Read(abs, w, a + b) == Read(abs, Read(abs, w, a), b)
    decreases |a|
  {
    if a == [] {
      assert a + b == b;
    } else {
      assert (a + b)[0] == a[0] && (a + b)[1..] == a[1..] + b;
      ReadAppend(abs, Step(abs, w, a[0]), a[1..], b);
    }
  }

  /** Characters other than '/' only extend the component being read. */
  lemma {:induction false} ReadName(abs: bool, w: Walk, c: string)
    requires '/' !in c
    ensures Read(abs, w, c) == Walk(w.kept, w.cur + c)
    decreases |c|
  {
    if c != [] {
      assert c[0] in c;
      assert forall x :: x in c[1..] ==> x in c;
      ReadName(abs, Walk(w.kept, w.cur + [c[0]]), c[1..]);
      assert w.cur + [c[0]] + c[1..] == w.cur + c;
    }
  }

  /** A '/' ends the component being read. */
  lemma ReadSlash(abs: bool, w: Walk)
    ensures Read(abs, w, "/") == Close(abs, w)
  {
    assert "/"[1..] == [];
  }

  /** Where the text read so far is empty or ends in '/', no component is being read. */
  lemma AtBoundary(abs: bool, a: string)
    requires a == [] || a[|a| - 1] == '/'
    ensures Read(abs, Start, a).cur == []
  {
    if a != [] {
      assert a == a[..|a| - 1] + "/";
      ReadAppend(abs, Start, a[..|a| - 1], "/");
      ReadSlash(abs, Read(abs, Start, a[..|a| - 1]));
    }
  }

  /** "//" reads as "/": the empty component between names nothing. */
  lemma DoubleSlash(abs: bool, w: Walk)
    ensures Read(abs, w, "//") == Read(abs, w, "/")
  {
    assert "//" == "/" + "/";
    ReadAppend(abs, w, "/", "/");
    ReadSlash(abs, w);
    ReadSlash(abs, Close(abs, w));
  }

  /** "/./" reads as "/": "." names nothing. */
  lemma SlashDotSlash(abs: bool, w: Walk)
    ensures Read(abs, w, "/./") == Read(abs, w, "/")
  {
    assert "/./" == "/" + "./";
    ReadAppend(abs, w, "/", "./");
    ReadSlash(abs, w);
    var c := Close(abs, w);
    assert "./" == "." + "/";
    ReadAppend(abs, c, ".", "/");
    ReadName(abs, c, ".");
    ReadSlash(abs, Walk(c.kept, "."));
  }

  /** Where no component is being read, "./" names nothing. */
  lemma DotSlash(abs: bool, w: Walk)
    requires w.cur == []
    ensures Read(abs, w, "./") == w
  {
    assert "./" == "." + "/";
    ReadAppend(abs, w, ".", "/");
    ReadName(abs, w, ".");
    assert w.cur + "." == ".";
    ReadSlash(abs, Walk(w.kept, "."));
  }

  /** A trailing "/." names nothing. */
  lemma TrailingDot(abs: bool, w: Walk)
    ensures Close(abs, Read(abs, w, "/.")) == Close(abs, w)
  {
    assert "/." == "/" + ".";
    ReadAppend(abs, w, "/", ".");
    ReadSlash(abs, w);
    ReadName(abs, Close(abs, w), ".");
  }

  /**
   * Where no component is being read, a name followed by "/.." (or by
   * "//..", its '/' written out) is cancelled, both before a further '/'
   * and at the end.
   */
  lemma NameUp(abs: bool, w: Walk, c: string, tail: string)
    requires w.cur == [] && IsName(c) && (tail == [] || tail == "/")
    ensures Read(abs, w, c + tail + "/../") == Read(abs, w, "/")
    ensures Close(abs, Read(abs, w, c + tail + "/..")) == w
  {
    ReadName(abs, w, c);
    var named := Walk(w.kept, c);
    assert w.cur + c == c;
    var pushed := Walk(w.kept + [c], []);
    assert Read(abs, named, tail + "/") == pushed by {
      ReadSlash(abs, named);
      if tail == "/" {
        assert tail + "/" == "//";
        DoubleSlash(abs, named);
      } else {
        assert tail + "/" == "/";
      }
    }
    assert (w.kept + [c])[..|w.kept|] == w.kept;
    ReadName(abs, pushed, "..");
    assert Close(abs, Walk(w.kept + [c], "..")) == w;
    var up := (tail + "/") + "..";
    assert c + tail + "/.." == c + up;
    ReadAppend(abs, w, c, up);
    ReadAppend(abs, named, tail + "/", "..");
    assert Read(abs, w, c + tail + "/..") == Walk(w.kept + [c], "..");
    assert c + tail + "/../" == (c + tail + "/..") + "/";
    ReadAppend(abs, w, c + tail + "/..", "/");
    ReadSlash(abs, Walk(w.kept + [c], ".."));
    ReadSlash(abs, w);
  }

  /** At the root of an absolute path "/.." names the root itself. */
  lemma RootUp()
    ensures Read(true, Start, "/../") == Read(true, Start, "/") == Start
    ensures Close(true, Read(true, Start, "/..")) == Start
  {
    ReadSlash(true, Start);
    assert "/.." == "/" + "..";
    ReadAppend(true, Start, "/", "..");
    ReadName(true, Start, "..");
    assert "/../" == "/.." + "/";
    ReadAppend(true, Start, "/..", "/");
    ReadSlash(true, Walk([], ".."));
  }

  /** Text that reads alike from the same point may replace other text anywhere. */
  lemma Replace(abs: bool, a: string, x: string, y: string, b: string)
    requires Read(abs, Read(abs, Start, a), x) == Read(abs, Read(abs, Start, a), y)
    ensures Resolve(abs, a + x + b) == Resolve(abs, a + y + b)
  {
    ReadAppend(abs, Start, a + x, b);
    ReadAppend(abs, Start, a, x);
    ReadAppend(abs, Start, a + y, b);
    ReadAppend(abs, Start, a, y);
  }

  /** Text that reads alike once it ends may replace other text at the end. */
  lemma ReplaceEnd(abs: bool, a: string, x: string, y: string)
    requires Close(abs, Read(abs, Read(abs, Start, a), x)) == Close(abs, Read(abs, Read(abs, Start, a), y))
    ensures Resolve(abs, a + x) == Resolve(abs, a + y)
  {
    ReadAppend(abs, Start, a, x);
    ReadAppend(abs, Start, a, y);
  }

  /*****************************************************************
   * What a resolved path holds
   *****************************************************************/

  /** The components that stand: names, and ".." only in a leading run, never in an absolute path. */
  ghost predicate Clean(abs: bool, kept: seq<string>) {
    (forall k :: 0 <= k < |kept| ==> IsName(kept[k]) || kept[k] == "..")
    && (forall i, j :: 0 <= i < j < |kept| && kept[j] == ".." ==> kept[i] == "..")
    && (abs ==> forall k :: 0 <= k < |kept| ==> kept[k] != "..")
  }

  /** Reading keeps the components clean. */
  lemma {:induction false} ReadClean(abs: bool, w: Walk, t: string)
    requires Clean(abs, w.kept) && '/' !in w.cur
    ensures Clean(abs, Read(abs, w, t).kept) && '/' !in Read(abs, w, t).cur
    decreases |t|
  {
    if t != [] {
      var w1 := Step(abs, w, t[0]);
      if t[0] == '/' {
        CloseClean(abs, w);
      } else {
        assert forall x :: x in w1.cur ==> x in w.cur || x == t[0];
      }
      ReadClean(abs, w1, t[1..]);
    }
  }

  /** Ending a component keeps the components clean. */
  lemma CloseClean(abs: bool, w: Walk)
    requires Clean(abs, w.kept) && '/' !in w.cur
    ensures Clean(abs, Close(abs, w).kept)
  {
    var c := w.cur;
    var r := Close(abs, w).kept;
    if c != [] && c != "." && c != ".." {
      assert IsName(c);
      assert r == w.kept + [c];
      assert forall k :: 0 <= k < |w.kept| ==> r[k] == w.kept[k];
    } else if c == ".." && |w.kept| > 0 && w.kept[|w.kept| - 1] != ".." {
      assert forall k :: 0 <= k < |r| ==> r[k] == w.kept[k];
    } else if c == ".." && !abs {
      assert forall k :: 0 <= k < |w.kept| ==> w.kept[k] == "..";
      assert forall k :: 0 <= k < |r| ==> r[k] == "..";
    }
  }

  /**
   * What any path resolves to is clean: no empty or "." component, ".."
   * only at the front, and none at all in an absolute path.
   */
  lemma ResolveClean(abs: bool, t: string)
    ensures Clean(abs, Resolve(abs, t))
  {
    ReadClean(abs, Start, t);
    CloseClean(abs, Read(abs, Start, t));
  }
}
