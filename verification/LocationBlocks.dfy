/** Location and server blocks, updated in place by the directives (srcs/LocationBlock.cpp,
    srcs/ServerBlock.cpp), proved against Settings. */
module LocationBlocks {
  import opened Octets
  import opened Numbers
  import opened Wrappers
  import opened Paths
  import opened Settings
  import HeadParsing

  class LocationBlock {
    var path: Path
    var dirListing: int
    var maxBodySize: int
    var root: Path
    var allowed: set<nat>
    var redirectStatus: int
    var redirectBody: string
    var indexes: seq<string>
    var cgis: map<string, Path>
    var uploadPath: Path
    var tempPath: Path

    function Value(): Location
      reads this
    {
      Location(path, dirListing, maxBodySize, root, allowed, redirectStatus, redirectBody, indexes, cgis,
               uploadPath, tempPath)
    }

    constructor (path: Path)
      ensures Value() == NewLocation(path)
    {
      this.path := path;
      dirListing, maxBodySize, allowed := UNDEFINED, UNDEFINED, {};
      root, uploadPath, tempPath := EMPTY, EMPTY, EMPTY;
      redirectStatus, redirectBody, indexes, cgis := 0, "", [], map[];
    }

    constructor Copy(l: Location)
      ensures Value() == l
    {
      path, dirListing, maxBodySize, root, allowed := l.path, l.dirListing, l.maxBodySize, l.root, l.allowed;
      redirectStatus, redirectBody, indexes, cgis := l.redirectStatus, l.redirectBody, l.indexes, l.cgis;
      uploadPath, tempPath := l.uploadPath, l.tempPath;
    }

    method SetDefaults()
      modifies this
      ensures Value() == old(Value()).(dirListing := 0, maxBodySize := DEFAULT_MAXBODYSIZE)
    {
      var ok := SetDirListing("off");
      maxBodySize := DEFAULT_MAXBODYSIZE;
    }

    method FillPaths(other: LocationBlock)
      modifies this`root, this`uploadPath, this`tempPath
      ensures root == (if old(root.Empty()) then old(other.root) else old(root))
      ensures uploadPath == (if old(uploadPath.Empty()) then old(other.uploadPath) else old(uploadPath))
      ensures tempPath == (if old(tempPath.Empty()) then old(other.tempPath) else old(tempPath))
    {
      if root.Empty() { root := other.root; }
      if uploadPath.Empty() { uploadPath := other.uploadPath; }
      if tempPath.Empty() { tempPath := other.tempPath; }
    }

    method FillNumbers(other: LocationBlock)
      modifies this`dirListing, this`maxBodySize, this`allowed
      ensures dirListing == (if old(dirListing) == UNDEFINED then old(other.dirListing) else old(dirListing))
      ensures maxBodySize == (if old(maxBodySize) == UNDEFINED then old(other.maxBodySize) else old(maxBodySize))
      ensures allowed == (if old(allowed) == {} then old(other.allowed) else old(allowed))
    {
      if dirListing == UNDEFINED { dirListing := other.dirListing; }
      if maxBodySize == UNDEFINED { maxBodySize := other.maxBodySize; }
      if allowed == {} { allowed := other.allowed; }
    }

    method FillLists(other: LocationBlock)
      modifies this`redirectStatus, this`redirectBody, this`indexes, this`cgis
      ensures redirectStatus == (if old(redirectStatus) == 0 then old(other.redirectStatus) else old(redirectStatus))
      ensures redirectBody == (if old(redirectStatus) == 0 then old(other.redirectBody) else old(redirectBody))
      ensures indexes == (if old(indexes) != [] then old(indexes)
                          else if old(other.indexes) != [] then old(other.indexes) else [DEFAULT_INDEX])
      ensures cgis == (if old(cgis) == map[] then old(other.cgis) else old(cgis))
    {
      if redirectStatus == 0 {
        redirectStatus, redirectBody := other.redirectStatus, other.redirectBody;
      }
      if |indexes| == 0 {
        if |other.indexes| != 0 {
          indexes := other.indexes;
        } else {
          indexes := indexes + [DEFAULT_INDEX];
        }
      }
      if |cgis| == 0 { cgis := other.cgis; }
    }

    /** Takes from `other` what it does not have itself. */
    method FillFrom(other: LocationBlock)
      modifies this
      ensures Value() == Fill(old(Value()), old(other.Value()))
    {
      hide Path.Empty;
      FillNumbers(other);
      FillPaths(other);
      FillLists(other);
    }

    /** The index of the first method with the name is set; -1 is returned as `false`. */
    method AllowMethod(str: string) returns (ok: bool)
      modifies this`allowed
      ensures ok <==> HeadParsing.MethodIndex(str) != HeadParsing.INVALID_METHOD
      ensures allowed == (if ok then old(allowed) + {HeadParsing.MethodIndex(str)} else old(allowed))
    {
      for i := 0 to |METHODS|
        invariant forall j :: 0 <= j < i ==> METHODS[j] != str
        invariant allowed == old(allowed)
      {
        if METHODS[i] == str {
          allowed := allowed + {i};
          return true;
        }
      }
      ok := false;
    }

    method SetDirListing(str: string) returns (ok: bool)
      modifies this`dirListing
      ensures ok <==> str == "on" || str == "off"
      ensures dirListing == (if str == "on" then 1 else if str == "off" then 0 else old(dirListing))
    {
      ok := true;
      if str == "on" {
        dirListing := 1;
      } else if str == "off" {
        dirListing := 0;
      } else {
        ok := false;
      }
    }

    method SetMaxBodySize(size: int)
      modifies this`maxBodySize
      ensures maxBodySize == Int32(size)
    {
      maxBodySize := Int32(size);
    }

    method SetRoot(str: string)
      modifies this`root
      ensures root == PathOf(str)
    {
      root := NewPath(str);
    }

    method SetRedirect(status: int, body: string) returns (ok: bool)
      modifies this`redirectStatus, this`redirectBody
      ensures ok <==> status in {300, 301, 302, 303, 304, 307, 308}
      ensures (redirectStatus, redirectBody) == (if ok then (status, body) else old((redirectStatus, redirectBody)))
    {
      match status {
        case 300 | 301 | 302 | 303 | 304 | 307 | 308 =>
          redirectStatus := status;
        case _ =>
          return false;
      }
      redirectBody := body;
      ok := true;
    }

    method AddIndex(str: string)
      modifies this`indexes
      ensures indexes == old(indexes) + [str]
    {
      indexes := indexes + [str];
    }

    method AddCGI(ext: string, bin: string)
      modifies this`cgis
      ensures cgis == old(cgis)[ext := PathOf(bin)]
    {
      var path := NewPath(bin);
      cgis := cgis[ext := path];
    }

    method SetClientBodyUploadPath(str: string)
      modifies this`uploadPath
      ensures uploadPath == PathOf(str)
    {
      uploadPath := NewPath(str);
    }

    method SetClientBodyTempPath(str: string)
      modifies this`tempPath
      ensures tempPath == PathOf(str)
    {
      tempPath := NewPath(str);
    }
  }

  class ServerBlock {
    var hosts: seq<Host>
    var names: seq<string>
    var locations: seq<Location>
    var errorPages: map<int, Path>

    function Value(): Block
      reads this
    {
      Block(hosts, names, locations, errorPages)
    }

    constructor ()
      ensures Value() == NEW_BLOCK
    {
      hosts, names, locations, errorPages := [], [], [], map[];
    }

    /** Every location inherits from the one of the server. */
    method FillLocations(location: LocationBlock)
      modifies this`locations
      ensures locations == FillAll(old(locations), location.Value())
    {
      for i := 0 to |locations|
        invariant |locations| == |old(locations)|
        invariant forall j :: 0 <= j < i ==> locations[j] == Fill(old(locations)[j], location.Value())
        invariant forall j :: i <= j < |locations| ==> locations[j] == old(locations)[j]
      {
        var l := new LocationBlock.Copy(locations[i]);
        l.FillFrom(location);
        locations := locations[i := l.Value()];
      }
    }
  }
}
