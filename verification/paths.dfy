/** File-name rules of the avatar picker: the extension `os.path.splitext`
    reports on a POSIX system, the accepted image extensions, and the path
    an accepted avatar is copied to. */
module Paths {
  import Text

  /** Index where the last path component starts. */
  function BaseStart(p: string): (r: nat)
    ensures r <= |p|
  {
    Text.RFind(p, '/') + 1
  }

  /** `os.path.splitext(p)[1]` with `/` as separator: the text from the
      last `.` of the last component, provided that some character of the
      component before that `.` is not a dot; otherwise empty. */
  function Extension(p: string): (r: string)
    ensures r == [] || (|r| <= |p| && r == p[|p| - |r|..])
    ensures r != [] ==>
              && r[0] == '.'
              && (forall k :: 0 < k < |r| ==> r[k] != '.' && r[k] != '/')
              && BaseStart(p) < |p| - |r|
              && (exists k :: BaseStart(p) <= k < |p| - |r| && p[k] != '.')
    ensures r == [] ==>
              forall d :: BaseStart(p) <= d < |p| && p[d] == '.' ==>
                forall k :: BaseStart(p) <= k < d ==> p[k] == '.'
  {
    var sep := Text.RFind(p, '/');
    var dot := Text.RFind(p, '.');
    if dot > sep && exists k :: sep + 1 <= k < dot && p[k] != '.' then
      assert p[dot..][0] == '.';
      p[dot..]
    else
      assert forall d :: sep < d < |p| && p[d] == '.' ==> d <= dot;
      []
  }

  /** `genericpath._splitext(p, '/', None, '.')` as the library writes it:
      two right-to-left searches and a scan of the leading dots of the last
      component. */
  method SplitExt(p: string) returns (root: string, ext: string)
    ensures root + ext == p
    ensures ext == Extension(p)
  {
    var sepIndex := -1;
    var dotIndex := -1;
    var i := 0;
    while i < |p|
      invariant 0 <= i <= |p|
      invariant sepIndex == Text.RFind(p[..i], '/')
      invariant dotIndex == Text.RFind(p[..i], '.')
    {
      assert p[..i + 1][..i] == p[..i];
      if p[i] == '/' {
        sepIndex := i;
      }
      if p[i] == '.' {
        dotIndex := i;
      }
      i := i + 1;
    }
    assert p[..|p|] == p;
    if dotIndex > sepIndex {
      var filenameIndex := sepIndex + 1;
      while filenameIndex < dotIndex
        invariant sepIndex + 1 <= filenameIndex <= dotIndex
        invariant forall k :: sepIndex + 1 <= k < filenameIndex ==> p[k] == '.'
      {
        if p[filenameIndex] != '.' {
          root, ext := p[..dotIndex], p[dotIndex..];
          assert p == root + ext;
          return;
        }
        filenameIndex := filenameIndex + 1;
      }
    }
    root, ext := p, [];
    assert p == root + ext;
  }

  /** The check `file_extension not in ['.png', '.jpg', '.jpeg']`, negated. */
  predicate AcceptedImage(ext: string) {
    ext == ".png" || ext == ".jpg" || ext == ".jpeg"
  }

  /** `f'avatars/user_{id}{ext}'`. */
  function AvatarTarget(id: int, ext: string): string {
    "avatars/user_" + Text.IntToString(id) + ext
  }

  /** The stored avatar path carries the chosen extension back: applying
      the same `splitext` to it gives the extension it was built from. */
  lemma TargetKeepsExtension(id: int, ext: string)
    requires AcceptedImage(ext)
    ensures Extension(AvatarTarget(id, ext)) == ext
  {
    var digits := Text.IntToString(id);
    var p := AvatarTarget(id, ext);
    var dotAt := 13 + |digits|;
    assert p[7] == '/' && p[8] == 'u';
    assert forall k :: 13 <= k < dotAt ==> p[k] == digits[k - 13];
    assert forall k :: 7 < k < |p| ==> p[k] != '/';
    assert Text.RFind(p, '/') == 7;
    assert p[dotAt] == '.';
    assert forall k :: dotAt < k < |p| ==> p[k] != '.';
    assert Text.RFind(p, '.') == dotAt;
    assert p[dotAt..] == ext;
  }
}
