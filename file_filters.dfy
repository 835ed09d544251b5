/**
 * FileFilters: the filter settings captured by the filters dialog and read
 * by the filter pass. The three fields are updated in place by setters.
 */
module Filters {
  import opened DateOptions

  /**
   * The extensions offered for selection. "All" selects every file type and
   * the empty string selects files that have no extension.
   */
  const FileExtensions: seq<string> :=
    ["All", "java", "class", "txt", "doc", "docx", "xls",
     "xlsx", "ppt", "png", "jpg", "pdf", "jar", "exe", "html",
     "xhtml", "htm", "mp3", "wmv", ""]

  /** The wildcard token of the file-type list. */
  const AllTypes: string := "All"

  class FileFilters {
    var allFiles: bool
    var dateOpt: DateOption
    var fileTypes: seq<string>

    /** All files for all days. */
    predicate IsDefault()
      reads this
    {
      !allFiles && dateOpt == AllDays && fileTypes == [AllTypes]
    }

    constructor ()
      ensures allFiles == false
      ensures dateOpt == AllDays
      ensures fileTypes == ["All"]
    {
      allFiles := false;
      dateOpt := AllDays;
      fileTypes := [AllTypes];
    }

    /** getDefault(): a new instance holding the constructor's defaults. */
    static method GetDefault() returns (f: FileFilters)
      ensures fresh(f)
      ensures f.IsDefault()
    {
      f := new FileFilters();
    }

    function GetAllFiles(): bool
      reads this
    {
      allFiles
    }

    function GetDateOption(): DateOption
      reads this
    {
      dateOpt
    }

    function GetFileTypes(): seq<string>
      reads this
    {
      fileTypes
    }

    method SetAllFiles(b: bool)
      modifies this`allFiles
      ensures GetAllFiles() == b
      ensures GetDateOption() == old(GetDateOption()) && GetFileTypes() == old(GetFileTypes())
    {
      allFiles := b;
    }

    method SetDateOption(d: DateOption)
      modifies this`dateOpt
      ensures GetDateOption() == d
      ensures GetAllFiles() == old(GetAllFiles()) && GetFileTypes() == old(GetFileTypes())
    {
      dateOpt := d;
    }

    method SetFileTypes(types: seq<string>)
      modifies this`fileTypes
      ensures GetFileTypes() == types
      ensures GetAllFiles() == old(GetAllFiles()) && GetDateOption() == old(GetDateOption())
    {
      fileTypes := types;
    }
  }

  /**
   * The offered list starts with the wildcard, ends with the token for "no
   * extension", and offers each extension once.
   */
  lemma FileExtensionsShape()
    ensures |FileExtensions| == 20
    ensures FileExtensions[0] == AllTypes && FileExtensions[|FileExtensions| - 1] == ""
    ensures forall e :: e in FileExtensions ==> '.' !in e
  {
  }

  /** No extension is offered twice. */
  lemma FileExtensionsDistinct()
    ensures forall i, j :: 0 <= i < j < |FileExtensions| ==> FileExtensions[i] != FileExtensions[j]
  {
  }
}
