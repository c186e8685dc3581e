/** The navigation state of the drive page: the id of the folder being
    viewed, changed only by the click handlers. The catalog is fixed for the
    page's lifetime and no handler touches it. */
module Navigation {
  import opened Catalog
  import Listing
  import Breadcrumbs

  class Drive {
    const folders: seq<Folder>
    const files: seq<File>
    var currentFolder: string

    /** The page starts at the top level. */
    constructor (folders: seq<Folder>, files: seq<File>)
      ensures this.folders == folders && this.files == files
      ensures currentFolder == Root
    {
      this.folders := folders;
      this.files := files;
      currentFolder := Root;
    }

    /** handleFolderClick: moves to `folderId`, whatever it is; an id that
        names no folder is accepted as well. */
    method HandleFolderClick(folderId: string)
      modifies this
      ensures currentFolder == folderId
    {
      currentFolder := folderId;
    }

    /** The "My Drive" button: back to the top level from anywhere. */
    method ShowMyDrive()
      modifies this
      ensures currentFolder == Root
    {
      currentFolder := Root;
    }

    /** handleUpload: only shows a notice (left out); the state stays. */
    method HandleUpload()
      ensures currentFolder == old(currentFolder)
    {
    }
  }

  /** A small example catalog: folder "b" (Tax) inside folder "a" (Docs) at
      the top level, and file "f1" inside "b". */
  function SampleFolders(): seq<Folder> {
    [Folder("a", "Docs", Root), Folder("b", "Tax", "a")]
  }

  function SampleFiles(): seq<File> {
    [File("f1", "r.pdf", "b", "pdf", 10.0)]
  }

  /** A client: clicking into the nested folder (twice, as once), then
      uploading; the views follow from the contracts alone. */
  method NestedFolderScenario()
  {
    var drive := new Drive(SampleFolders(), SampleFiles());
    drive.HandleFolderClick("b");
    drive.HandleFolderClick("b");
    drive.HandleUpload();
    assert drive.currentFolder == "b";
    assert Listing.CurrentFolders(drive.folders, drive.currentFolder) == [];
    assert Listing.CurrentFiles(drive.files, drive.currentFolder) == SampleFiles();
    assert Breadcrumbs.ReachesRoot(drive.folders, "b", 2);
    Breadcrumbs.ReachesRootHalts(drive.folders, "b", 2);
    var crumbs := Breadcrumbs.GetBreadcrumbs(drive.folders, drive.currentFolder);
    assert crumbs == SampleFolders();
  }

  /** A client: an unknown id shows nothing and has no trail; "My Drive"
      returns to the top level, whose trail is empty too. */
  method UnknownFolderScenario()
  {
    var drive := new Drive(SampleFolders(), SampleFiles());
    drive.HandleFolderClick("ghost");
    assert Listing.CurrentFiles(drive.files, drive.currentFolder) == [];
    assert Listing.CurrentFolders(drive.folders, drive.currentFolder) == [];
    assert Breadcrumbs.Halts(drive.folders, "ghost", 0);
    var crumbs := Breadcrumbs.GetBreadcrumbs(drive.folders, drive.currentFolder);
    assert crumbs == [];
    drive.ShowMyDrive();
    assert Breadcrumbs.Halts(drive.folders, drive.currentFolder, 0);
    crumbs := Breadcrumbs.GetBreadcrumbs(drive.folders, drive.currentFolder);
    assert crumbs == [] && drive.folders == SampleFolders();
  }
}
