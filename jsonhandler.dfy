/**
 * The JSON store of modules/jsonhandler.py. The `data/` directory is a map
 * from file name to the dictionary that file holds; JSON encoding is not
 * modelled, so a file's dictionary maps its keys to values of a type `V`.
 */
module JsonHandler {
  import opened Wrappers
  import opened PyText

  const Extension: string := ".json"

  /** The contents of the `data/` directory: file name to the dictionary stored in it. */
  type Files<V> = map<string, map<string, V>>

  datatype Error = FileNotFoundError(name: string)

  /** `validate_name`: the file name with `.json` added unless it already ends with it. */
  function ValidateName(filename: string): (r: string)
    ensures EndsWith(r, Extension)
  {
    if EndsWith(filename, Extension) then filename
    else
      EndsWithAppended(filename, Extension);
      filename + Extension
  }

  /** A name is left as it is exactly when it already ends with `.json`; otherwise `.json` is appended. */
  lemma ValidateNameCases(filename: string)
    ensures ValidateName(filename) == filename <==> EndsWith(filename, Extension)
    ensures !EndsWith(filename, Extension) ==> ValidateName(filename) == filename + Extension
  {
    if !EndsWith(filename, Extension) {
      assert |ValidateName(filename)| == |filename| + |Extension|;
    }
  }

  /** Validating a validated name changes nothing. */
  lemma ValidateNameIdempotent(filename: string)
    ensures ValidateName(ValidateName(filename)) == ValidateName(filename)
  {
  }

  /** Two names reach the same file when they agree once validated; `f` and `f + ".json"` do unless `f` already ends with `.json`. */
  lemma ValidateNameSameFile(filename: string)
    ensures ValidateName(filename + Extension) == ValidateName(filename) <==> !EndsWith(filename, Extension)
  {
    EndsWithAppended(filename, Extension);
    ValidateNameCases(filename);
  }

  /** `read_file`: the dictionary in `data/<validated name>`, or the FileNotFoundError `open` raises. */
  function ReadFile<V>(files: Files<V>, filename: string): (r: Result<map<string, V>, Error>)
    ensures r.Ok? <==> ValidateName(filename) in files
    ensures r.Ok? ==> r.value == files[ValidateName(filename)]
    ensures r.Err? ==> r.error == FileNotFoundError(ValidateName(filename))
  {
    var name := ValidateName(filename);
    if name in files then Ok(files[name]) else Err(FileNotFoundError(name))
  }

  /** `fetch_data`: `dict.get(key, None)` on the file's dictionary: the stored value when the key is there, `None` when it is not; a missing file is an error. */
  function FetchData<V>(files: Files<V>, key: string, filename: string): (r: Result<Option<V>, Error>)
    ensures var name := ValidateName(filename);
      (r.Err? <==> name !in files) &&
      (name in files && key in files[name] ==> r == Ok(Some(files[name][key]))) &&
      (name in files && key !in files[name] ==> r == Ok(None))
  {
    match ReadFile(files, filename)
    case Err(e) => Err(e)
    case Ok(d) => Ok(if key in d then Some(d[key]) else None)
  }

  /** Python's `file | data`: the keys of both, with `data`'s value wherever both have the key. */
  function Merge<V>(file: map<string, V>, data: map<string, V>): (m: map<string, V>)
    ensures m.Keys == file.Keys + data.Keys
    ensures forall k :: k in data ==> m[k] == data[k]
    ensures forall k :: k in file && k !in data ==> m[k] == file[k]
  {
    file + data
  }

  /** Merging the same data twice gives what merging it once gives. */
  lemma MergeIdempotent<V>(file: map<string, V>, data: map<string, V>)
    ensures Merge(Merge(file, data), data) == Merge(file, data)
  {
  }

  /** The `data/` directory, which `overwrite_file` and `append_data` write. */
  class DataDir<V> {
    var files: Files<V>

    constructor (files: Files<V>)
      ensures this.files == files
    {
      this.files := files;
    }

    /** `overwrite_file`: the validated file now holds exactly `data`; every other file is as it was. */
    method OverwriteFile(data: map<string, V>, filename: string)
      modifies this
      ensures files == old(files)[ValidateName(filename) := data]
    {
      files := files[ValidateName(filename) := data];
    }

    /**
     * `append_data`: read the file, merge `data` into it and write the
     * result back; a missing file raises before anything is written.
     */
    method AppendData(data: map<string, V>, filename: string) returns (r: Outcome<Error>)
      modifies this
      ensures var name := ValidateName(filename);
        if name in old(files)
        then r == Pass && files == old(files)[name := Merge(old(files)[name], data)]
        else r == Fail(FileNotFoundError(name)) && files == old(files)
    {
      var file := ReadFile(files, filename);
      if file.Err? {
        return Fail(file.error);
      }
      OverwriteFile(Merge(file.value, data), filename);
      return Pass;
    }
  }

  /** Reading a file back, under any name that validates to the same file, gives what was last written. */
  lemma ReadAfterOverwrite<V>(files: Files<V>, data: map<string, V>, written: string, read: string)
    requires ValidateName(written) == ValidateName(read)
    ensures ReadFile(files[ValidateName(written) := data], read) == Ok(data)
  {
  }

  /** Overwriting one file leaves every other file readable as before. */
  lemma OverwriteKeepsOthers<V>(files: Files<V>, data: map<string, V>, written: string, read: string)
    requires ValidateName(written) != ValidateName(read)
    ensures ReadFile(files[ValidateName(written) := data], read) == ReadFile(files, read)
  {
  }

  /**
   * After appending `data` to an existing file, a fetch of a key of `data`
   * finds `data`'s value, a fetch of a key only the old file had finds the
   * old value, and any other key is absent.
   */
  lemma FetchAfterAppend<V>(files: Files<V>, data: map<string, V>, filename: string, key: string)
    requires ValidateName(filename) in files
    ensures var name := ValidateName(filename);
      var after := files[name := Merge(files[name], data)];
      (key in data ==> FetchData(after, key, filename) == Ok(Some(data[key]))) &&
      (key !in data && key in files[name] ==> FetchData(after, key, filename) == Ok(Some(files[name][key]))) &&
      (key !in data && key !in files[name] ==> FetchData(after, key, filename) == Ok(None))
  {
  }
}
