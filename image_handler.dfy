/** ImageHandler: copies a chosen picture into the application's image directory under a
    fresh name and hands back a relative token ("images/<uuid><ext>") for the cars table;
    the token is resolved back to a file when the picture is shown or deleted.  The file
    system is a map from path to contents; the UUID is a parameter. */
module ImageHandler {
  import opened JavaLang

  const ImageDir: string := "src/main/resources/images/"
  const ResourceDir: string := "src/main/resources/"
  const TokenPrefix: string := "images/"

  // ---------------------------------------------------------------------------
  // The string functions

  /** File.getName(): the part of the path after its last '/'. */
  function FileName(path: string): (name: string)
    ensures '/' !in name
    ensures |name| <= |path| && path[|path| - |name|..] == name
  {
    var slash := LastIndexOf(path, '/');
    path[slash + 1..]
  }

  /** The extension saveImage keeps: from the last '.' on, but only when that dot is not the
      first character; otherwise nothing. */
  function Extension(name: string): (ext: string)
  {
    var dot := LastIndexOf(name, '.');
    if dot > 0 then name[dot..] else ""
  }

  /** What Extension keeps: either nothing, or a suffix of the name that starts with its
      only dot, preceded by at least one character; nothing exactly when the name has no
      dot past its first character. */
  lemma ExtensionShape(name: string)
    ensures var ext := Extension(name);
      ext == "" || (|ext| < |name| && name[|name| - |ext|..] == ext && ext[0] == '.' && '.' !in ext[1..])
    ensures Extension(name) == "" <==> forall i | 0 < i < |name| :: name[i] != '.'
  {
    var dot := LastIndexOf(name, '.');
    if dot > 0 {
      var ext := name[dot..];
      assert forall i | 1 <= i < |ext| :: ext[i] == name[dot + i];
    } else if dot == 0 {
      assert forall i | 0 < i < |name| :: name[i] != '.';
    }
  }

  /** The file name saveImage gives the copy. */
  function UniqueName(uuid: string, sourceName: string): string {
    uuid + Extension(sourceName)
  }

  /** The token stored in image_path. */
  function Token(uniqueName: string): string {
    TokenPrefix + uniqueName
  }

  /** getImageFile/deleteImage: a token is resolved under src/main/resources/, any other
      path is taken as it is. */
  function ResolvePath(imagePath: string): string {
    if StartsWith(imagePath, TokenPrefix) then ResourceDir + imagePath else imagePath
  }

  /** Resolving a token yields the very path saveImage copied the file to. */
  lemma ResolveToken(uniqueName: string)
    ensures ResolvePath(Token(uniqueName)) == ImageDir + uniqueName
  {
    assert Token(uniqueName)[..|TokenPrefix|] == TokenPrefix;
  }

  /** Resolution is idempotent: a resolved path does not start with "images/" again. */
  lemma ResolveIdempotent(imagePath: string)
    ensures ResolvePath(ResolvePath(imagePath)) == ResolvePath(imagePath)
  {
    if StartsWith(imagePath, TokenPrefix) {
      var full := ResourceDir + imagePath;
      assert full[0] != TokenPrefix[0];
    }
  }

  /** The copy keeps the original's extension, given a UUID without dots (UUID strings are
      hex digits and hyphens). */
  lemma {:induction false} RenameKeepsExtension(uuid: string, sourceName: string)
    requires |uuid| > 0 && '.' !in uuid
    ensures Extension(UniqueName(uuid, sourceName)) == Extension(sourceName)
  {
    var ext := Extension(sourceName);
    var name := uuid + ext;
    ExtensionShape(sourceName);
    if ext == "" {
      assert forall i | 0 <= i < |name| :: name[i] == uuid[i];
      assert LastIndexOf(name, '.') == -1;
    } else {
      assert name[|uuid|] == '.';
      assert forall i | |uuid| < i < |name| :: name[i] == ext[i - |uuid|];
      assert LastIndexOf(name, '.') == |uuid|;
      assert name[|uuid|..] == ext;
    }
  }

  // ---------------------------------------------------------------------------
  // The file operations

  /** The files on disk.  `writable` is false when the disk refuses writes, which makes
      Files.copy and Files.deleteIfExists throw IOException. */
  class FileStore {
    var files: map<string, seq<int>>
    var writable: bool

    constructor (files: map<string, seq<int>>, writable: bool)
      ensures this.files == files && this.writable == writable
    {
      this.files, this.writable := files, writable;
    }

    /** saveImage: null for a null or missing source; otherwise the source is copied to
        ImageDir + uuid + extension (replacing any file there) and the token is returned;
        an I/O error gives null and copies nothing. */
    method SaveImage(source: Option<string>, uuid: string) returns (token: Option<string>)
      modifies this`files
      ensures token.Some? <==> source.Some? && source.value in old(files) && writable
      ensures token.Some? ==>
        var name := UniqueName(uuid, FileName(source.value));
        token.value == Token(name) &&
        files == old(files)[ImageDir + name := old(files)[source.value]]
      ensures token.None? ==> files == old(files)
    {
      if source.None? || source.value !in files {
        return None;
      }
      var originalName := FileName(source.value);
      var extension := Extension(originalName);
      var uniqueName := uuid + extension;
      var target := ImageDir + uniqueName;
      if !writable {
        return None;
      }
      files := files[target := files[source.value]];
      token := Some(TokenPrefix + uniqueName);
    }

    /** getImageFile: the resolved path when that file exists; null for a null or empty
        path or a missing file. */
    method GetImageFile(imagePath: Option<string>) returns (file: Option<string>)
      ensures file.Some? <==> imagePath.Some? && imagePath.value != [] && ResolvePath(imagePath.value) in files
      ensures file.Some? ==> file.value == ResolvePath(imagePath.value)
    {
      if imagePath.None? || imagePath.value == [] {
        return None;
      }
      var fullPath := ResolvePath(imagePath.value);
      if fullPath in files {
        return Some(fullPath);
      }
      return None;
    }

    /** deleteImage: Files.deleteIfExists on the resolved path; true iff a file was removed.
        A null or empty path, or an I/O error, gives false and removes nothing. */
    method DeleteImage(imagePath: Option<string>) returns (deleted: bool)
      modifies this`files
      ensures deleted <==> imagePath.Some? && imagePath.value != [] && writable && ResolvePath(imagePath.value) in old(files)
      ensures deleted ==> files == old(files) - {ResolvePath(imagePath.value)}
      ensures !deleted ==> files == old(files)
    {
      if imagePath.None? || imagePath.value == [] {
        return false;
      }
      var fullPath := ResolvePath(imagePath.value);
      if !writable {
        return false;
      }
      if fullPath in files {
        files := files - {fullPath};
        return true;
      }
      return false;
    }
  }

  /** A saved picture is found again through its token, with the copied contents. */
  method SaveThenLoad(store: FileStore, source: string, uuid: string) returns (token: Option<string>, file: Option<string>)
    modifies store`files
    ensures token.Some? ==> source in old(store.files) && file.Some? && file.value in store.files
    ensures token.Some? ==> store.files[file.value] == old(store.files)[source]
    ensures token.Some? ==> file.value == ImageDir + UniqueName(uuid, FileName(source))
  {
    token := store.SaveImage(Some(source), uuid);
    file := None;
    if token.Some? {
      var name := UniqueName(uuid, FileName(source));
      ResolveToken(name);
      assert Token(name) != [];
      file := store.GetImageFile(token);
    }
  }
}
