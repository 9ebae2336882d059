/**
 * Names of student photo files: the filesystem-safe form of a student
 * identifier, the two ways the code builds a photo file name from an
 * identifier, and the reconciliation applied to a stored name when it is read.
 */
module Assets {
  import opened Text

  /** The characters the photo naming replaces by `_`. */
  predicate IsUnsafe(c: char) {
    c == '/' || c == '\\' || c == ':'
  }

  /**
   * `student_id.replace('/', '_').replace('\\', '_').replace(':', '_')`:
   * same length as `id`, each unsafe character turned into `_`, every other
   * character kept, so no unsafe character is left.
   */
  function SafeId(id: string): (r: string)
    ensures |r| == |id|
    ensures forall i :: 0 <= i < |id| ==> r[i] == if IsUnsafe(id[i]) then '_' else id[i]
    ensures forall i :: 0 <= i < |r| ==> !IsUnsafe(r[i])
  {
    var slashes := ReplaceAll(id, "/", "_");
    ReplaceAllOneChar(id, '/', '_');
    var backslashes := ReplaceAll(slashes, "\\", "_");
    ReplaceAllOneChar(slashes, '\\', '_');
    ReplaceAllOneChar(backslashes, ':', '_');
    ReplaceAll(backslashes, ":", "_")
  }

  /** An identifier without unsafe characters is its own safe form. */
  lemma SafeIdIdentity(id: string)
    requires forall i :: 0 <= i < |id| ==> !IsUnsafe(id[i])
    ensures SafeId(id) == id
  {
  }

  /** Sanitising twice is sanitising once. */
  lemma SafeIdIdempotent(id: string)
    ensures SafeId(SafeId(id)) == SafeId(id)
  {
    SafeIdIdentity(SafeId(id));
  }

  /** Two identifiers that differ only in which unsafe character stands where share a safe form, hence a photo file. */
  lemma SafeIdCollision()
    ensures "A/B" != "A_B" && SafeId("A/B") == SafeId("A_B")
  {
    assert SafeId("A/B") == "A_B";
    SafeIdIdentity("A_B");
  }

  /** The extension `save_student_photo` keeps: the source's own, or `.jpg` when it has none, lower-cased. */
  function StoredExtension(source: string): (ext: string)
    ensures |ext| > 0 && ext[0] == '.'
    ensures forall i :: 0 <= i < |ext| ==> ext[i] != '/' && ext[i] != '\\'
    ensures forall i :: 0 < i < |ext| ==> ext[i] != '.'
    ensures Lower(ext) == ext
    ensures Extension(source) == "" ==> ext == ".jpg"
    ensures Extension(source) != "" ==> ext == Lower(Extension(source))
  {
    var e := Extension(source);
    Lower(if e == "" then ".jpg" else e)
  }

  /**
   * The photo file name the registration form writes: the safe identifier
   * followed by the stored extension. It holds no `/` or `\`, so the file
   * lands directly in the photo directory.
   */
  function PhotoFilename(id: string, source: string): (name: string)
    ensures |name| > |id| && name[..|id|] == SafeId(id) && name[|id|] == '.'
    ensures forall i :: 0 <= i < |name| ==> name[i] != '/' && name[i] != '\\'
    ensures name == SafeId(id) + StoredExtension(source)
  {
    SafeId(id) + StoredExtension(source)
  }

  /** The photo file name `database.save_student_photo` writes: the raw identifier followed by the lower-cased extension. */
  function DbPhotoFilename(id: string, source: string): (name: string)
    ensures |name| >= |id| && name[..|id|] == id
    ensures name[|id|..] == Lower(Extension(source))
  {
    id + Lower(Extension(source))
  }

  /**
   * The rewrite applied to a stored `photo_path` when it is read back: only when
   * both the identifier and the stored name contain `/`, occurrences of the
   * identifier in the name are replaced by the identifier with `/` turned into `_`.
   */
  function ReconcilePhotoPath(id: string, photoPath: string): (r: string)
    ensures !('/' in id && '/' in photoPath) ==> r == photoPath
    ensures '/' in id && '/' in photoPath ==> r == ReplaceAll(photoPath, id, Substitute(id, '/', '_'))
  {
    ReplaceAllOneChar(id, '/', '_');
    if '/' in id && '/' in photoPath then ReplaceAll(photoPath, id, ReplaceAll(id, "/", "_")) else photoPath
  }

  /** Names written by the registration form come back unchanged. */
  lemma ReconcileKeepsFormNames(id: string, source: string)
    ensures ReconcilePhotoPath(id, PhotoFilename(id, source)) == PhotoFilename(id, source)
  {
    var name := PhotoFilename(id, source);
    assert '/' !in name by {
      forall i | 0 <= i < |name| ensures name[i] != '/' { }
    }
  }

  /** Lower-casing never produces a `/`. */
  lemma LowerKeepsNoSlash(s: string)
    requires '/' !in s
    ensures '/' !in Lower(s)
  {
    var r := Lower(s);
    forall i | 0 <= i < |r| ensures r[i] != '/' {
      assert s[i] != '/';
    }
  }

  /**
   * For an identifier whose only unsafe character is `/`, reconciliation turns
   * the name `database.save_student_photo` would write into the form's safe
   * name (with the same extension).
   */
  lemma {:induction false} ReconcileRepairsSlashIds(id: string, source: string)
    requires '\\' !in id && ':' !in id
    ensures ReconcilePhotoPath(id, DbPhotoFilename(id, source)) == SafeId(id) + Lower(Extension(source))
  {
    var ext := Lower(Extension(source));
    var stored := DbPhotoFilename(id, source);
    assert stored == id + ext;
    ReplaceAllOneChar(id, '/', '_');
    assert ReplaceAll(id, "/", "_") == SafeId(id);
    if '/' in id {
      assert '/' in stored by {
        var i :| 0 <= i < |id| && id[i] == '/';
        assert stored[i] == '/';
      }
      ReplaceAllPrefix(id, ext, SafeId(id));
      assert '/' !in Extension(source) by {
        var e := Extension(source);
        forall i | 0 <= i < |e| ensures e[i] != '/' { }
      }
      LowerKeepsNoSlash(Extension(source));
      ReplaceAllAbsent(ext, id, SafeId(id), '/');
    } else {
      SafeIdIdentity(id);
    }
  }

  /**
   * Reconciliation handles `/` only: when the identifier holds a `\` or `:`, the
   * name `database.save_student_photo` would write is not turned into the
   * form's name, whatever the source file.
   */
  lemma ReconcileMissesOtherUnsafe(id: string, source: string, i: int)
    requires 0 <= i < |id| && (id[i] == '\\' || id[i] == ':')
    ensures ReconcilePhotoPath(id, DbPhotoFilename(id, source)) != PhotoFilename(id, source)
  {
    var ext := Lower(Extension(source));
    var stored := DbPhotoFilename(id, source);
    var reconciled := ReconcilePhotoPath(id, stored);
    assert PhotoFilename(id, source)[i] == '_';
    if '/' in id && '/' in stored {
      ReplaceAllOneChar(id, '/', '_');
      assert stored == id + ext;
      ReplaceAllPrefix(id, ext, Substitute(id, '/', '_'));
      assert reconciled[i] == id[i];
    } else {
      assert reconciled[i] == id[i];
    }
  }

  /** For a safe identifier and a source with an extension, both namings agree. */
  lemma NamingAgreesOnSafeIds(id: string, source: string)
    requires forall i :: 0 <= i < |id| ==> !IsUnsafe(id[i])
    requires Extension(source) != ""
    ensures DbPhotoFilename(id, source) == PhotoFilename(id, source)
  {
    SafeIdIdentity(id);
  }

  /** For an identifier with an unsafe character the two namings give different files. */
  lemma NamingDivergesOnUnsafeIds(id: string, source: string, i: int)
    requires 0 <= i < |id| && IsUnsafe(id[i])
    ensures DbPhotoFilename(id, source) != PhotoFilename(id, source)
  {
    assert DbPhotoFilename(id, source)[i] == id[i];
    assert PhotoFilename(id, source)[i] == '_';
  }

  /**
   * A stored photo, looked at again as a source path in the photo directory,
   * yields its own name: the extension of `Join(dir, PhotoFilename(id, src))`
   * is the stored extension, provided the safe identifier is not all dots.
   */
  lemma PhotoFilenameOfStoredPhoto(dir: string, id: string, src: string, m: int)
    requires 0 <= m < |id| && id[m] != '.'
    ensures PhotoFilename(id, Join(dir, PhotoFilename(id, src))) == PhotoFilename(id, src)
  {
    var base, ext := SafeId(id), StoredExtension(src);
    assert PhotoFilename(id, src) == base + ext;
    ExtensionOfJoin(dir, base, ext, m);
  }
}
