/**
 Path resolution: a walk over the components of a name that asks the host, at
 the end of each one, whether the path so far is a symbolic link, and starts
 over with the link's target in its place. `Resolve` is the same thing said
 without the walk: rewrite the name at its first link until there is none.
 */
module PathResolution {
  import opened Common

  /** What readlink gives for a path below a directory; never an empty target. */
  type Links = (int, string) -> Option<string>

  ghost predicate Proper(links: Links) {
    forall dir, path :: links(dir, path) != Some("")
  }

  const LOOP_MAX: int := 20

  datatype Outcome = Loops | Found(dir: int, subpath: string)

  datatype Place = Place(dir: int, name: string)

  /** Names below these are left absolute: they are the host's own. */
  const MOUNTS: seq<string> := ["/Users", "/Volumes", "/dev", "/tmp", "/private"]

  predicate Mounted(name: string) {
    exists i :: 0 <= i < |MOUNTS| && MOUNTS[i] <= name
  }

  /** An absolute name is one below the root directory, unless it is the host's. */
  function Mount(root: int, p: Place): (q: Place)
    ensures p.name != "" && p.name != "/" ==> q.name != ""
  {
    if p.name != "" && p.name[0] == '/' && !Mounted(p.name) then Place(root, p.name[1..]) else p
  }

  /** A component of the name ends at k. */
  predicate Ends(name: string, k: int) {
    || (0 <= k < |name| && name[k] == '/')
    || (0 < k == |name| && name[k - 1] != '/')
  }

  predicate LinkAt(links: Links, p: Place, k: int) {
    Ends(p.name, k) && links(p.dir, p.name[..k]) != None
  }

  /** The name has no link in it: no path that ends a component of it is one. */
  ghost predicate NoLinks(links: Links, p: Place) {
    forall k {:trigger Ends(p.name, k)} :: Ends(p.name, k) ==> links(p.dir, p.name[..k]) == None
  }

  /** k is where the first link ends. */
  ghost predicate FirstLink(links: Links, p: Place, k: int) {
    LinkAt(links, p, k) && forall j :: 0 <= j < k ==> !LinkAt(links, p, j)
  }

  /** The length of a path without its last component. */
  function BaseLength(s: string): (n: nat)
    ensures n <= |s|
  {
    if s == "" then 0 else if s[|s| - 1] == '/' then |s| else BaseLength(s[..|s| - 1])
  }

  /** The name with the link that ends at k replaced by its target. */
  function Rewrite(links: Links, p: Place, k: int): (q: Place)
    requires LinkAt(links, p, k)
  {
    var target := links(p.dir, p.name[..k]).value;
    if target != "" && target[0] == '/' then Place(p.dir, target + p.name[k..])
    else Place(p.dir, p.name[..k][..BaseLength(p.name[..k])] + (target + p.name[k..]))
  }

  /** One link fewer: the next name, if there is a link. */
  ghost function Next(links: Links, root: int, p: Place): (q: Option<Place>) {
    if p.name == "/" then None
    else
      var m := Mount(root, p);
      if k: int :| FirstLink(links, m, k) then Some(Rewrite(links, m, k)) else None
  }

  /** Resolution, by rewriting. */
  ghost function Resolve(links: Links, root: int, p: Place, follow: bool, loop: int): (r: Outcome)
    decreases LOOP_MAX + 1 - loop
  {
    if loop > LOOP_MAX then Loops
    else if p.name == "/" then Found(root, ".")
    else if follow && Next(links, root, p).Some? then Resolve(links, root, Next(links, root, p).value, follow, loop + 1)
    else Found(Mount(root, p).dir, Mount(root, p).name)
  }

  lemma FirstLinkUnique(links: Links, p: Place, j: int, k: int)
    requires FirstLink(links, p, j) && FirstLink(links, p, k)
    ensures j == k
  {
    assert LinkAt(links, p, j) && LinkAt(links, p, k);
  }

  lemma NextIs(links: Links, root: int, p: Place, k: int)
    requires p.name != "/" && FirstLink(links, Mount(root, p), k)
    ensures Next(links, root, p) == Some(Rewrite(links, Mount(root, p), k))
  {
    hide FirstLink;
    var m := Mount(root, p);
    forall j | FirstLink(links, m, j)
      ensures j == k
    {
      FirstLinkUnique(links, m, j, k);
    }
    assert exists j :: FirstLink(links, m, j);
  }

  lemma NoNext(links: Links, root: int, p: Place)
    requires p.name != "/" && NoLinks(links, Mount(root, p))
    ensures Next(links, root, p) == None
  {
  }

  /** Cutting the last component off, backwards from the end. */
  method RemoveLast(sub: string) returns (r: string)
    ensures r == sub[..BaseLength(sub)]
  {
    var m := |sub|;
    assert sub[..m] == sub;
    while m > 0 && sub[m - 1] != '/'
      invariant 0 <= m <= |sub| && BaseLength(sub) == BaseLength(sub[..m])
    {
      assert sub[..m][..m - 1] == sub[..m - 1];
      m := m - 1;
    }
    r := sub[..m];
  }

  /** Nothing that ends a component before c is a link. */
  ghost predicate Clear(links: Links, p: Place, c: int) {
    forall k {:trigger LinkAt(links, p, k)} :: k < c ==> !LinkAt(links, p, k)
  }

  lemma ClearStep(links: Links, p: Place, c: int)
    requires Clear(links, p, c) && !LinkAt(links, p, c)
    ensures Clear(links, p, c + 1)
  {
  }

  lemma ClearFirst(links: Links, p: Place, c: int)
    requires Clear(links, p, c) && LinkAt(links, p, c)
    ensures FirstLink(links, p, c)
  {
  }

  lemma ClearAll(links: Links, p: Place)
    requires Clear(links, p, |p.name| + 1)
    ensures NoLinks(links, p)
  {
    forall k | Ends(p.name, k)
      ensures links(p.dir, p.name[..k]) == None
    {
      assert !LinkAt(links, p, k);
    }
  }

  /** resolve_path; its assertion that the name is not empty always holds. */
  method ResolvePath(links: Links, root: int, dir: int, name: string, follow: bool, loop: int) returns (r: Outcome)
    requires Proper(links) && name != ""
    ensures r == Resolve(links, root, Place(dir, name), follow, loop)
    decreases LOOP_MAX + 1 - loop
  {
    hide LinkAt, Clear, NoLinks, FirstLink, Next, Rewrite, Mounted, BaseLength, Ends;
    if loop > LOOP_MAX {
      return Loops;
    }
    ghost var p := Place(dir, name);
    var d, n := dir, name;
    if n[0] == '/' {
      if |n| == 1 {
        assert name == "/";
        return Found(root, ".");
      }
      if !Mounted(n) {
        d, n := root, n[1..];
      }
    }
    assert n != "";
    ghost var m := Place(d, n);
    assert m == Mount(root, p);
    var k, target;
    k, target := Walk(links, d, n, follow);
    if k == -1 {
      if follow {
        NoNext(links, root, p);
      }
      return Found(d, n);
    }
    NextIs(links, root, p, k);
    var buf := target + n[k..];
    if buf[0] == '/' {
      RewriteIs(links, m, k, "");
      r := ResolvePath(links, root, d, buf, follow, loop + 1);
    } else {
      var base := RemoveLast(n[..k]);
      RewriteIs(links, m, k, base);
      r := ResolvePath(links, root, d, base + buf, follow, loop + 1);
    }
  }

  lemma RewriteIs(links: Links, p: Place, k: int, base: string)
    requires Proper(links) && FirstLink(links, p, k) && LinkAt(links, p, k)
    ensures 0 <= k <= |p.name|
    ensures var target := links(p.dir, p.name[..k]).value;
            && target != ""
            && (target[0] == '/' ==> Rewrite(links, p, k) == Place(p.dir, target + p.name[k..]))
            && (target[0] != '/' && base == p.name[..k][..BaseLength(p.name[..k])] ==>
                  Rewrite(links, p, k) == Place(p.dir, base + (target + p.name[k..])))
  {
  }

  /** The walk: copies component after component, and stops at the first path that is a link. */
  method Walk(links: Links, d: int, n: string, follow: bool) returns (k: int, target: string)
    requires n != ""
    ensures k == -1 ==> follow ==> NoLinks(links, Place(d, n))
    ensures k != -1 ==> follow && 0 <= k <= |n| && FirstLink(links, Place(d, n), k) && links(d, n[..k]) == Some(target)
    ensures k != -1 ==> LinkAt(links, Place(d, n), k)
  {
    hide Clear, NoLinks, FirstLink;
    ghost var p := Place(d, n);
    var sub, c := "", 0;
    StartClear(links, p);
    while c < |n|
      invariant 0 <= c <= |n| && sub == n[..c]
      invariant follow ==> Clear(links, p, c)
      invariant c == |n| ==> follow ==> Clear(links, p, |n| + 1)
    {
      ghost var c0 := c;
      while c < |n| && n[c] != '/'
        invariant c0 <= c <= |n| && sub == n[..c]
        invariant forall i :: c0 <= i < c ==> n[i] != '/'
        invariant follow ==> Clear(links, p, c)
      {
        if follow {
          ClearStep(links, p, c);
        }
        sub, c := sub + [n[c]], c + 1;
      }
      assert Ends(n, c);
      if follow {
        var t := links(d, sub);
        if t != None {
          ClearFirst(links, p, c);
          return c, t.value;
        }
        ClearStep(links, p, c);
      }
      if c < |n| {
        sub, c := sub + [n[c]], c + 1;
        if c == |n| && follow {
          ClearStep(links, p, c);
        }
      }
    }
    if follow {
      ClearAll(links, p);
    }
    k, target := -1, "";
  }

  lemma StartClear(links: Links, p: Place)
    ensures Clear(links, p, 0)
  {
  }

  // ---- what resolution gives -------------------------------------------

  /**
   A following resolution that succeeds gives a path without links below the
   directory it gives, or the root itself.
   */
  lemma {:induction false} NoLinksLeft(links: Links, root: int, p: Place, loop: int)
    requires Proper(links) && p.name != "" && Resolve(links, root, p, true, loop).Found?
    ensures var r := Resolve(links, root, p, true, loop);
            r == Found(root, ".") || (r.subpath != "" && NoLinks(links, Place(r.dir, r.subpath)))
    decreases LOOP_MAX + 1 - loop
  {
    if p.name != "/" {
      if Next(links, root, p).Some? {
        NextNotEmpty(links, root, p);
        NoLinksLeft(links, root, Next(links, root, p).value, loop + 1);
      } else {
        NoLinksWithout(links, root, p);
      }
    }
  }

  lemma NextNotEmpty(links: Links, root: int, p: Place)
    requires Proper(links) && Next(links, root, p).Some?
    ensures Next(links, root, p).value.name != ""
  {
    var m := Mount(root, p);
    var k :| FirstLink(links, m, k);
    NextIs(links, root, p, k);
    RewriteIs(links, m, k, m.name[..k][..BaseLength(m.name[..k])]);
  }

  lemma NoLinksWithout(links: Links, root: int, p: Place)
    requires p.name != "/" && Next(links, root, p) == None
    ensures NoLinks(links, Mount(root, p))
  {
    var m := Mount(root, p);
    forall k | Ends(m.name, k)
      ensures !LinkAt(links, m, k)
    {
      if LinkAt(links, m, k) {
        Least(links, m, k);
      }
    }
    forall k | Ends(m.name, k)
      ensures links(m.dir, m.name[..k]) == None
    {
      assert !LinkAt(links, m, k);
    }
  }

  /** Where there is a link, there is a first one. */
  lemma {:induction false} Least(links: Links, p: Place, k: int)
    requires LinkAt(links, p, k)
    ensures exists j :: FirstLink(links, p, j)
    decreases k
  {
    if j :| 0 <= j < k && LinkAt(links, p, j) {
      Least(links, p, j);
    } else {
      assert FirstLink(links, p, k);
    }
  }

  // ---- where a link leads ----------------------------------------------

  /** A directory part: nothing, or something that ends in a slash. */
  predicate IsDirectory(d: string) {
    d == "" || d[|d| - 1] == '/'
  }

  lemma {:induction false} BaseLengthIs(d: string, last: string)
    requires IsDirectory(d) && '/' !in last
    ensures BaseLength(d + last) == |d|
    decreases |last|
  {
    var s := d + last;
    if last == "" {
      assert s == d;
    } else {
      assert s[|s| - 1] == last[|last| - 1];
      assert s[..|s| - 1] == d + last[..|last| - 1];
      BaseLengthIs(d, last[..|last| - 1]);
    }
  }

  /**
   A relative target takes the place of the link's last component, an absolute
   one that of the whole path up to it; what follows the link stays.
   */
  lemma LinkLeadsTo(links: Links, root: int, p: Place, k: int, d: string, last: string, target: string)
    requires Proper(links) && p.name != "/" && FirstLink(links, Mount(root, p), k)
    requires var m := Mount(root, p);
             0 <= k <= |m.name| && m.name[..k] == d + last && links(m.dir, m.name[..k]) == Some(target)
    requires IsDirectory(d) && '/' !in last
    ensures var m := Mount(root, p);
            && target != ""
            && (target[0] != '/' ==> Next(links, root, p) == Some(Place(m.dir, d + target + m.name[k..])))
            && (target[0] == '/' ==> Next(links, root, p) == Some(Place(m.dir, target + m.name[k..])))
  {
    hide FirstLink, Next, Mount, BaseLength;
    var m := Mount(root, p);
    assert LinkAt(links, m, k) by { FirstIsLink(links, m, k); }
    NextIs(links, root, p, k);
    BaseLengthIs(d, last);
    assert m.name[..k][..|d|] == d;
    assert target != "";
    assert d + (target + m.name[k..]) == d + target + m.name[k..];
  }

  lemma FirstIsLink(links: Links, p: Place, k: int)
    requires FirstLink(links, p, k)
    ensures LinkAt(links, p, k)
  {
  }

  /** Absolute names move below the root directory and lose their slash, but for those of the host. */
  lemma MountIs(root: int, p: Place)
    ensures var hosts := "/Users" <= p.name || "/Volumes" <= p.name || "/dev" <= p.name || "/tmp" <= p.name
                         || "/private" <= p.name;
            && (|p.name| > 0 && p.name[0] == '/' && !hosts ==> Mount(root, p) == Place(root, p.name[1..]))
            && (p.name == "" || p.name[0] != '/' || hosts ==> Mount(root, p) == p)
  {
    assert MOUNTS[0] == "/Users" && MOUNTS[1] == "/Volumes" && MOUNTS[2] == "/dev";
    assert MOUNTS[3] == "/tmp" && MOUNTS[4] == "/private";
  }

  /** In a name without links, no path that ends with a whole component is one. */
  lemma ComponentIsNoLink(links: Links, dir: int, front: string, component: string, rest: string)
    requires NoLinks(links, Place(dir, front + component + rest))
    requires IsDirectory(front) && component != "" && '/' !in component && (rest == "" || rest[0] == '/')
    ensures links(dir, front + component) == None
  {
    var name, k := front + component + rest, |front| + |component|;
    assert name[..k] == front + component;
    assert rest == "" ==> name[k - 1] == component[|component| - 1];
    assert rest != "" ==> name[k] == rest[0];
    assert Ends(name, k);
  }

  /** "c" behind the link "a/b" is "a/c". */
  lemma RelativeExample(links: Links, root: int, d: int)
    requires Proper(links)
    requires forall path :: links(d, path) == if path == "a/b" then Some("c") else None
    ensures Resolve(links, root, Place(d, "a/b"), true, 0) == Found(d, "a/c")
  {
    hide Resolve;
    var p, q := Place(d, "a/b"), Place(d, "a/c");
    MountIs(root, p);
    MountIs(root, q);
    assert p.name[..1] == "a" && p.name[..3] == "a/b";
    assert LinkAt(links, p, 3) && !LinkAt(links, p, 0) && !LinkAt(links, p, 1) && !LinkAt(links, p, 2);
    assert FirstLink(links, p, 3);
    assert "a/" + "b" == "a/b" && "a/" + "c" + p.name[3..] == "a/c";
    LinkLeadsTo(links, root, p, 3, "a/", "b", "c");
    NoLinksIn(links, d);
    NoNext(links, root, q);
    ResolveTwice(links, root, p, q);
  }

  lemma NoLinksIn(links: Links, d: int)
    requires forall path :: links(d, path) == if path == "a/b" then Some("c") else None
    ensures NoLinks(links, Place(d, "a/c"))
  {
    forall k | Ends("a/c", k)
      ensures links(d, "a/c"[..k]) == None
    {
      assert k == 3 ==> "a/c"[..k][2] == 'c' && "a/b"[2] == 'b';
    }
  }

  lemma ResolveTwice(links: Links, root: int, p: Place, q: Place)
    requires p.name != "/" && q.name != "/" && Next(links, root, p) == Some(q) && Next(links, root, q) == None
    ensures Resolve(links, root, p, true, 0) == Found(Mount(root, q).dir, Mount(root, q).name)
  {
    hide Next, Mount;
    assert Resolve(links, root, q, true, 1) == Found(Mount(root, q).dir, Mount(root, q).name);
  }

  /** n rewritings in a row, if there are links for all of them. */
  ghost function Rewritten(links: Links, root: int, p: Place, n: nat): (q: Option<Place>)
    decreases n
  {
    if n == 0 then Some(p)
    else
      var q := Next(links, root, p);
      if q == None then None else Rewritten(links, root, q.value, n - 1)
  }

  lemma RootNext(links: Links, root: int, p: Place)
    ensures p.name == "/" ==> Next(links, root, p) == None
  {
  }

  /** A following resolution gives up exactly when more rewritings are possible than are left. */
  lemma {:induction false} LoopsIff(links: Links, root: int, p: Place, loop: int)
    requires loop <= LOOP_MAX + 1
    ensures Resolve(links, root, p, true, loop) == Loops <==> Rewritten(links, root, p, LOOP_MAX + 1 - loop).Some?
    decreases LOOP_MAX + 1 - loop
  {
    hide Next, Mount;
    RootNext(links, root, p);
    if loop <= LOOP_MAX && Next(links, root, p).Some? {
      LoopsIff(links, root, Next(links, root, p).value, loop + 1);
    }
  }

  /** Otherwise it gives the name that the rewriting ends with. */
  lemma {:induction false} FoundIs(links: Links, root: int, p: Place, loop: int, n: nat)
    requires loop + n <= LOOP_MAX && Rewritten(links, root, p, n).Some?
    requires Next(links, root, Rewritten(links, root, p, n).value) == None
    ensures var q := Rewritten(links, root, p, n).value;
            Resolve(links, root, p, true, loop) ==
              if q.name == "/" then Found(root, ".") else Found(Mount(root, q).dir, Mount(root, q).name)
    decreases n
  {
    hide FirstLink, Mount, Mounted, LinkAt, Rewrite;
    if n > 0 {
      FoundIs(links, root, Next(links, root, p).value, loop + 1, n - 1);
    }
  }
}
