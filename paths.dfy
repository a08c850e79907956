/** The part of `pathlib` the agents use: building a path from a string,
    the `/` operator, `relative_to`, `name`, `parts` and `str()`; and the
    file system the agents read and write, as a map from path to text. */
module Paths {
  import opened Text
  import opened Wrappers

  /** A path as pathlib normalises it: whether it is anchored at `/`, and
      its parts after the anchor. */
  datatype Path = Path(absolute: bool, parts: seq<string>)

  /** The files on disk, by path. Directories are implicit. */
  type FileSystem = map<Path, string>

  /** Pieces of a path string that pathlib keeps: empty pieces (from `//`
      or a trailing `/`) and `.` vanish. */
  predicate KeptPart(piece: string) {
    piece != "" && piece != "."
  }

  function KeepParts(pieces: seq<string>): seq<string>
  {
    if pieces == [] then []
    else (if KeptPart(pieces[0]) then [pieces[0]] else []) + KeepParts(pieces[1..])
  }

  /** `Path(s)` */
  function Parse(s: string): Path {
    Path(|s| > 0 && s[0] == '/', KeepParts(Split(s, '/')))
  }

  /** A path as `Parse` builds it: no part is empty, `.`, or holds `/`. */
  predicate Normal(p: Path) {
    forall k | 0 <= k < |p.parts| :: KeptPart(p.parts[k]) && '/' !in p.parts[k]
  }

  /** `str(p)` */
  function Render(p: Path): string {
    if p.absolute then "/" + Join(p.parts, '/')
    else if p.parts == [] then "."
    else Join(p.parts, '/')
  }

  /** Every part kept is one pathlib keeps ... */
  lemma {:induction false} KeepPartsKept(pieces: seq<string>)
    ensures forall k | 0 <= k < |KeepParts(pieces)| :: KeptPart(KeepParts(pieces)[k])
    decreases |pieces|
  {
    if pieces != [] {
      KeepPartsKept(pieces[1..]);
    }
  }

  /** ... and parts pathlib keeps are all kept. */
  lemma {:induction false} KeepKeptParts(pieces: seq<string>)
    requires forall k | 0 <= k < |pieces| :: KeptPart(pieces[k])
    ensures KeepParts(pieces) == pieces
    decreases |pieces|
  {
    if pieces != [] {
      KeepKeptParts(pieces[1..]);
    }
  }

  /** Reading back the string form of a normal path gives the same path, so
      `str` is one-to-one on the paths pathlib builds. */
  lemma ParseRender(p: Path)
    requires Normal(p)
    ensures Parse(Render(p)) == p
  {
    var joined := Join(p.parts, '/');
    if p.parts != [] {
      SplitJoin(p.parts, '/');
      KeepKeptParts(p.parts);
    }
    assert KeepParts(Split(joined, '/')) == p.parts;
    if p.absolute {
      var s := "/" + joined;
      assert s[1..] == joined;
      assert Split(s, '/') == [""] + Split(joined, '/');
      assert ([""] + Split(joined, '/'))[1..] == Split(joined, '/');
    } else if p.parts == [] {
      var rest := Split("."[1..], '/');
      assert "."[1..] == "" && rest == [""];
      assert Split(".", '/') == [['.'] + rest[0]] + rest[1..];
      assert ['.'] + rest[0] == "." && rest[1..] == [];
    } else {
      assert p.parts[0] == Split(joined, '/')[0];
      assert joined[0] == p.parts[0][0];
    }
  }

  /** `root / rel`: an anchored right operand discards the root. */
  function JoinPath(root: Path, rel: Path): Path {
    if rel.absolute then rel else Path(root.absolute, root.parts + rel.parts)
  }

  /** `root / s` with a string right operand. */
  function Child(root: Path, s: string): Path {
    JoinPath(root, Parse(s))
  }

  /** `p.relative_to(root)`; None where pathlib raises ValueError. */
  function RelativeTo(p: Path, root: Path): Option<Path> {
    if p.absolute == root.absolute && |root.parts| <= |p.parts| && p.parts[..|root.parts|] == root.parts
    then Some(Path(false, p.parts[|root.parts|..]))
    else None
  }

  /** `relative_to` undoes `/` for a relative right operand ... */
  lemma RelativeToJoin(root: Path, rel: Path)
    requires !rel.absolute
    ensures RelativeTo(JoinPath(root, rel), root) == Some(rel)
  {
    assert (root.parts + rel.parts)[..|root.parts|] == root.parts;
    assert (root.parts + rel.parts)[|root.parts|..] == rel.parts;
  }

  /** ... and `/` undoes `relative_to`. */
  lemma JoinRelativeTo(p: Path, root: Path)
    requires RelativeTo(p, root).Some?
    ensures JoinPath(root, RelativeTo(p, root).value) == p
  {
    assert p.parts == p.parts[..|root.parts|] + p.parts[|root.parts|..];
  }

  /** `p.name`: the last part, or "" for a path with no parts. */
  function Name(p: Path): string {
    if p.parts == [] then "" else p.parts[|p.parts| - 1]
  }
}
