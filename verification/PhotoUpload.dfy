/**
 * The list of photos chosen for upload (`selectedFiles`): files are checked
 * one by one as they are picked or dropped, accepted ones are appended, and
 * the preview lets the guest remove one or clear them all.
 */
module PhotoUpload {
  import opened JsStrings
  import opened Sequences

  /** A picked file: its name, its declared MIME type and its size in bytes. */
  datatype FileInfo = FileInfo(name: string, mimeType: string, size: nat)

  const ValidTypes: seq<string> := ["image/jpeg", "image/png", "image/webp", "image/heic"]
  const MaxSize: nat := 10 * 1024 * 1024

  const TypeAlert := "Please upload only JPG, PNG, or WebP images."

  function SizeAlert(name: string): string {
    FilePrefix + name + TooLarge
  }

  const FilePrefix := "File \""
  const TooLarge := "\" is too large. Maximum size is 10MB."

  predicate TypeAccepted(f: FileInfo) {
    f.mimeType in ValidTypes || EndsWith(Lower(f.name), ".heic")
  }

  predicate Accepted(f: FileInfo) {
    TypeAccepted(f) && f.size <= MaxSize
  }

  predicate AllAccepted(files: seq<FileInfo>) {
    forall i :: 0 <= i < |files| ==> Accepted(files[i])
  }

  lemma AllAcceptedAppend(a: seq<FileInfo>, b: seq<FileInfo>)
    requires AllAccepted(a) && AllAccepted(b)
    ensures AllAccepted(a + b)
  {
    forall i | 0 <= i < |a + b| ensures Accepted((a + b)[i]) {
      if i >= |a| {
        assert (a + b)[i] == b[i - |a|];
      }
    }
  }

  /** The files of `files` that pass both checks, in input order. */
  function AcceptedFiles(files: seq<FileInfo>): (r: seq<FileInfo>)
    ensures AllAccepted(r)
  {
    if files == [] then []
    else
      var last := files[|files| - 1];
      var init := AcceptedFiles(files[..|files| - 1]);
      if Accepted(last) then init + [last] else init
  }

  /** Every accepted file is kept, as often as it was picked, and the kept files keep their
      input order. */
  lemma {:induction false} AcceptedFilesSpec(files: seq<FileInfo>)
    ensures forall i :: 0 <= i < |files| && Accepted(files[i]) ==> files[i] in AcceptedFiles(files)
    ensures forall x :: multiset(AcceptedFiles(files))[x] == if Accepted(x) then multiset(files)[x] else 0
    ensures IsSubsequence(AcceptedFiles(files), files)
  {
    if files != [] {
      var init := files[..|files| - 1];
      var last := files[|files| - 1];
      AcceptedFilesSpec(init);
      var r := AcceptedFiles(files);
      assert init + [last] == files;
      assert multiset(files) == multiset(init) + multiset{last};
      if Accepted(last) {
        SubsequenceSnoc(AcceptedFiles(init), init, last);
      } else {
        SubsequenceExtend(AcceptedFiles(init), init, last);
      }
      forall i | 0 <= i < |files| && Accepted(files[i]) ensures files[i] in r {
        if i < |init| {
          assert files[i] == init[i];
        }
      }
    }
  }

  /** One more file extends the accepted files and the alerts by what the checks decide for it. */
  lemma FilesStep(files: seq<FileInfo>, i: nat)
    requires i < |files|
    ensures AcceptedFiles(files[..i + 1]) == AcceptedFiles(files[..i]) + (if Accepted(files[i]) then [files[i]] else [])
    ensures RejectionAlerts(files[..i + 1]) == RejectionAlerts(files[..i]) + AlertFor(files[i])
  {
    assert files[..i + 1][..i] == files[..i];
  }

  /** The alert `handleFiles` raises for one file, if any: the type is checked first. */
  function AlertFor(f: FileInfo): (r: seq<string>)
    ensures |r| <= 1 && (r == [] <==> Accepted(f))
  {
    if !TypeAccepted(f) then [TypeAlert]
    else if f.size > MaxSize then [SizeAlert(f.name)]
    else []
  }

  /** The alerts `handleFiles` raises for `files`, one per rejected file, in input order. */
  function RejectionAlerts(files: seq<FileInfo>): seq<string> {
    if files == [] then []
    else RejectionAlerts(files[..|files| - 1]) + AlertFor(files[|files| - 1])
  }

  /** Every file is either selected or alerted about, never both. */
  lemma {:induction false} AlertsCount(files: seq<FileInfo>)
    ensures |RejectionAlerts(files)| + |AcceptedFiles(files)| == |files|
  {
    if files != [] {
      AlertsCount(files[..|files| - 1]);
    }
  }

  /** Choosing the same files again after filtering changes nothing. */
  lemma {:induction false} AcceptedFilesIdempotent(files: seq<FileInfo>)
    ensures AcceptedFiles(AcceptedFiles(files)) == AcceptedFiles(files)
  {
    if files != [] {
      var init := files[..|files| - 1];
      var last := files[|files| - 1];
      AcceptedFilesIdempotent(init);
      var a := AcceptedFiles(init);
      if Accepted(last) {
        assert (a + [last])[..|a|] == a;
      }
    }
  }

  /** Picking `a` and then `b` selects what picking `a + b` at once would. */
  lemma {:induction false} AcceptedFilesAppend(a: seq<FileInfo>, b: seq<FileInfo>)
    ensures AcceptedFiles(a + b) == AcceptedFiles(a) + AcceptedFiles(b)
    decreases |b|
  {
    if b == [] {
      assert a + b == a;
    } else {
      var init := b[..|b| - 1];
      AcceptedFilesAppend(a, init);
      assert (a + b)[..|a + b| - 1] == a + init;
      assert (a + b)[|a + b| - 1] == b[|b| - 1];
    }
  }

  /** ... and raises the alerts picking `a + b` at once would, in the same order. */
  lemma {:induction false} RejectionAlertsAppend(a: seq<FileInfo>, b: seq<FileInfo>)
    ensures RejectionAlerts(a + b) == RejectionAlerts(a) + RejectionAlerts(b)
    decreases |b|
  {
    if b == [] {
      assert a + b == a;
    } else {
      var init := b[..|b| - 1];
      var alert := AlertFor(b[|b| - 1]);
      RejectionAlertsAppend(a, init);
      assert (a + b)[..|a + b| - 1] == a + init;
      assert (a + b)[|a + b| - 1] == b[|b| - 1];
      calc {
        RejectionAlerts(a + b);
        RejectionAlerts(a + init) + alert;
        RejectionAlerts(a) + RejectionAlerts(init) + alert;
        RejectionAlerts(a) + (RejectionAlerts(init) + alert);
      }
    }
  }

  class UploadSelection {
    var selectedFiles: seq<FileInfo>
    var previewVisible: bool
    var uploadEnabled: bool

    /** The preview and the upload button are on exactly when some file is selected,
        and only accepted files are ever selected. */
    ghost predicate Valid()
      reads this
    {
      && previewVisible == uploadEnabled == (|selectedFiles| > 0)
      && AllAccepted(selectedFiles)
    }

    constructor ()
      ensures Valid() && selectedFiles == []
    {
      selectedFiles := [];
      previewVisible, uploadEnabled := false, false;
    }

    /** `updatePreview`, as far as visibility goes. */
    method UpdatePreview()
      modifies this
      ensures selectedFiles == old(selectedFiles)
      ensures previewVisible == uploadEnabled == (|selectedFiles| > 0)
    {
      if |selectedFiles| == 0 {
        previewVisible, uploadEnabled := false, false;
        return;
      }
      previewVisible, uploadEnabled := true, true;
    }

    /** `handleFiles`: append, in order, the files that pass the type and size checks;
        alert once for each file that does not. */
    method HandleFiles(files: seq<FileInfo>) returns (alerts: seq<string>)
      requires Valid()
      modifies this
      ensures Valid()
      ensures selectedFiles == old(selectedFiles) + AcceptedFiles(files)
      ensures alerts == RejectionAlerts(files)
    {
      ghost var start := selectedFiles;
      alerts := [];
      for i := 0 to |files|
        invariant selectedFiles == start + AcceptedFiles(files[..i])
        invariant alerts == RejectionAlerts(files[..i])
      {
        FilesStep(files, i);
        var file := files[i];
        if !TypeAccepted(file) {
          alerts := alerts + [TypeAlert];
          continue;
        }
        if file.size > MaxSize {
          alerts := alerts + [SizeAlert(file.name)];
          continue;
        }
        selectedFiles := selectedFiles + [file];
      }
      assert files[..|files|] == files;
      AllAcceptedAppend(start, AcceptedFiles(files));
      UpdatePreview();
    }

    /** The remove button of preview item `index`: `splice(index, 1)`, which does nothing
        for an index past the end. */
    method RemoveAt(index: nat)
      requires Valid()
      modifies this
      ensures Valid()
      ensures selectedFiles ==
                if index < |old(selectedFiles)| then old(selectedFiles)[..index] + old(selectedFiles)[index + 1..]
                else old(selectedFiles)
    {
      if index < |selectedFiles| {
        selectedFiles := selectedFiles[..index] + selectedFiles[index + 1..];
      }
      UpdatePreview();
    }

    /** `clearAllFiles`. */
    method ClearAllFiles()
      modifies this
      ensures Valid() && selectedFiles == []
    {
      selectedFiles := [];
      UpdatePreview();
    }
  }
}
