/** The part of the file system `write_config_if_changed` touches: a mutable
    map from path to text content, with the three std::fs operations it calls.
    Failures the operating system may report are passed in as parameters. */
module Fs {
  import opened Wrappers

  /** A path split into its directory, its file stem and its extension
      ("/etc/bird/peerlab_generated.conf" is ("/etc/bird", "peerlab_generated", Some("conf"))). */
  datatype Path = Path(parent: string, stem: string, extension: Option<string>)

  /** `Path::with_extension`: the same directory and stem, another extension. */
  function WithExtension(p: Path, ext: string): Path {
    p.(extension := Some(ext))
  }

  /** How `fs::write` ends: it completes, or `File::create` fails and nothing
      is touched, or it fails part-way after creating (truncating) the file,
      which then holds the part of the content written so far. */
  datatype WriteOutcome = Completes | CreateFails | FailsAfterWriting(written: string)

  class FileSystem {
    var files: map<Path, string>

    constructor (initial: map<Path, string>)
      ensures files == initial
    {
      files := initial;
    }

    /** `Path::exists`: the path has content in the map. */
    function Exists(p: Path): bool
      reads this
    {
      p in files
    }

    /** `fs::read_to_string`: the content, unless the path is absent or the
        read fails for another reason (`fails`). */
    method ReadToString(p: Path, fails: bool) returns (r: Option<string>)
      ensures r.Some? <==> p in files && !fails
      ensures r.Some? ==> r.value == files[p]
    {
      if p in files && !fails {
        r := Some(files[p]);
      } else {
        r := None;
      }
    }

    /** `fs::write`: create or truncate `p`, then write `content` into it. */
    method Write(p: Path, content: string, outcome: WriteOutcome) returns (ok: bool)
      requires outcome.FailsAfterWriting? ==> outcome.written <= content
      modifies this
      ensures ok <==> outcome == Completes
      ensures files == match outcome
        case Completes => old(files)[p := content]
        case CreateFails => old(files)
        case FailsAfterWriting(w) => old(files)[p := w]
    {
      match outcome {
        case Completes =>
          files := files[p := content];
        case CreateFails =>
        case FailsAfterWriting(w) =>
          files := files[p := w];
      }
      ok := outcome == Completes;
    }

    /** `fs::rename`: in one step, `to` takes the content of `from` and `from`
        disappears. It fails, changing nothing, when `from` is absent or when
        the operating system refuses (`fails`). */
    method Rename(from: Path, to: Path, fails: bool) returns (ok: bool)
      modifies this
      ensures ok <==> from in old(files) && !fails
      ensures files == if ok then (old(files) - {from})[to := old(files)[from]] else old(files)
    {
      ok := from in files && !fails;
      if ok {
        files := (files - {from})[to := files[from]];
      }
    }
  }
}
