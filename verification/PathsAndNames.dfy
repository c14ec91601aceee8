/** What the tests on paths and names mean: folders by their components, names letter by letter. */
module PathsAndNames {
  import opened Syntax
  import opened WorkspaceScan

  // ----- Paths -----

  /** A component of a cleaned path. */
  ghost predicate IsPart(part: string) {
    part != "" && '/' !in part
  }

  ghost predicate AreParts(parts: seq<string>) {
    forall i :: 0 <= i < |parts| ==> IsPart(parts[i])
  }

  ghost function Written(parts: seq<string>): string {
    if parts == [] then "" else "/" + parts[0] + Written(parts[1..])
  }

  /** The cleaned absolute path of these components. */
  ghost function Absolute(parts: seq<string>): Path {
    if parts == [] then "/" else Written(parts)
  }

  /** Where the shorter of two first components ends there is a slash. */
  lemma Border(a: string, x: string, b: string, y: string)
    requires (x == "" || x[0] == '/') && (y == "" || y[0] == '/') && a + x <= b + y
    ensures |a| < |b| && x != "" ==> b[|a|] == '/'
    ensures |b| < |a| ==> a[|b|] == '/'
    ensures |a| <= |b| ==> a <= b
    ensures |a| == |b| ==> x <= y
  {
    assert forall i :: 0 <= i < |a + x| ==> (a + x)[i] == (b + y)[i];
    assert |a| < |b| && x != "" ==> (a + x)[|a|] == (b + y)[|a|];
    assert |b| < |a| ==> (a + x)[|b|] == (b + y)[|b|];
    assert (a + x)[|a|..] == x && (b + y)[|b|..] == y;
    if |a| <= |b| {
      assert forall i :: 0 <= i < |a| ==> a[i] == (a + x)[i] && b[i] == (b + y)[i];
    }
  }

  /** Two paths that begin alike up to a slash have the same first component. */
  lemma FirstPart(a: string, x: string, b: string, y: string)
    requires IsPart(a) && IsPart(b) && (x == "" || x[0] == '/') && (y == "" || y[0] == '/')
    requires a + x <= b + y
    ensures x != "" ==> a == b && x <= y
    ensures a <= b
  {
    Border(a, x, b, y);
  }

  lemma Slashes(parts: seq<string>)
    requires AreParts(parts)
    ensures parts == [] ==> Written(parts) == ""
    ensures parts != [] ==>
              && IsPart(parts[0]) && AreParts(parts[1..])
              && Written(parts) == "/" + (parts[0] + Written(parts[1..]))
              && |Written(parts)| > 1 && Written(parts)[0] == '/'
  {
    if parts != [] { assert |parts[0]| > 0; }
  }

  lemma {:induction false} WrittenBelow(root: seq<string>, parts: seq<string>)
    requires AreParts(root) && AreParts(parts)
    ensures Written(root) + "/" <= Written(parts) <==> root < parts
    decreases |root|
  {
    Slashes(root);
    Slashes(parts);
    if root != [] && parts != [] {
      var a, b, x, y := root[0], parts[0], Written(root[1..]), Written(parts[1..]);
      WrittenBelow(root[1..], parts[1..]);
      Slashes(root[1..]);
      Slashes(parts[1..]);
      hide Written;
      assert Written(root) + "/" == "/" + (a + (x + "/"));
      assert ("/" + (a + (x + "/")))[1..] == a + (x + "/") && ("/" + (b + y))[1..] == b + y;
      if Written(root) + "/" <= Written(parts) {
        assert a + (x + "/") <= b + y;
        FirstPart(a, x + "/", b, y);
      }
    }
  }

  lemma {:induction false} WrittenOnce(x: seq<string>, y: seq<string>)
    requires AreParts(x) && AreParts(y) && Written(x) == Written(y)
    ensures x == y
  {
    Slashes(x);
    Slashes(y);
    if x != [] && y != [] {
      var v, w := Written(x[1..]), Written(y[1..]);
      Slashes(x[1..]);
      Slashes(y[1..]);
      assert ("/" + (x[0] + v))[1..] == x[0] + v && ("/" + (y[0] + w))[1..] == y[0] + w;
      FirstPart(x[0], v, y[0], w);
      FirstPart(y[0], w, x[0], v);
      assert (x[0] + v)[|x[0]|..] == v && (y[0] + w)[|y[0]|..] == w;
      WrittenOnce(x[1..], y[1..]);
    }
  }

  /** A path lies in a folder exactly when the components of the folder begin those of the path. */
  lemma InsideIff(root: seq<string>, parts: seq<string>)
    requires AreParts(root) && AreParts(parts)
    ensures Inside(Absolute(root), Absolute(parts)) <==> root <= parts
  {
    Slashes(root);
    Slashes(parts);
    WrittenBelow(root, parts);
    if Written(root) == Written(parts) { WrittenOnce(root, parts); }
    assert Absolute(parts)[..1] == "/";
    assert root <= parts <==> root < parts || root == parts;
  }

  // ----- Names -----

  /** The same letter, or an ASCII letter in both cases. */
  ghost predicate SameLetter(c: char, d: char) {
    c == d || ('a' <= c <= 'z' && d as int + 32 == c as int) || ('a' <= d <= 'z' && c as int + 32 == d as int)
  }

  ghost predicate SameButCase(a: string, b: string) {
    |a| == |b| && forall i :: 0 <= i < |a| ==> SameLetter(a[i], b[i])
  }

  /** Names that fold alike are the same but for the case of ASCII letters. */
  lemma FoldIff(a: string, b: string)
    ensures Fold(a) == Fold(b) <==> SameButCase(a, b)
    ensures EqualFold(a, b) <==> SameButCase(a, b)
  {
    if Fold(a) == Fold(b) {
      assert |Fold(a)| == |Fold(b)|;
      forall i | 0 <= i < |a| ensures SameLetter(a[i], b[i]) { assert Fold(a)[i] == Fold(b)[i]; }
    }
  }

  /** A folded name is in upper case and the same name. */
  lemma FoldedIs(s: string)
    ensures SameButCase(Fold(s), s)
    ensures forall i :: 0 <= i < |Fold(s)| ==> !('a' <= Fold(s)[i] <= 'z')
  {}

  // ----- Dotted paths -----

  /** A path is written as its names in order, one dot between each two. */
  lemma {:induction false} DottedOne(idents: seq<Ident>, more: seq<Ident>)
    ensures idents == [] ==> Dotted(idents) == ""
    ensures |idents| == 1 ==> Dotted(idents) == idents[0].name
    ensures idents != [] && more != [] ==> Dotted(idents + more) == Dotted(idents) + "." + Dotted(more)
  {
    if idents != [] && more != [] {
      assert (idents + more)[1..] == idents[1..] + more;
      if |idents| > 1 {
        DottedOne(idents[1..], more);
      } else {
        assert idents[1..] + more == more;
      }
    }
  }
}
