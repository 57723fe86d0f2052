/**
 * What the server learns from outside itself.  Every subprocess, directory
 * listing and database write it performs is a total function here, given
 * the arguments the code passes; the model says nothing about how the tools
 * compute their answers.  Outputs are as `strip_output` returns them
 * (trailing whitespace removed).
 */
module Host {

  datatype Host = Host(
    /** `os.listdir(path)`, in the order the directory yields it. */
    listdir: string -> seq<string>,
    /** `nix-build --expr <expression> --no-out-link`: the output path. */
    nixBuild: string -> string,
    /** `du -sb <path>`. */
    du: string -> string,
    /** `nix-hash --type sha256 --base32 --flat <file>`. */
    hashFile: string -> string,
    /** `nix-hash --type sha256 --base32 <store path>`. */
    hashPath: string -> string,
    /** `nix-store --query <option> <store path>`. */
    query: (string, string) -> string,
    /** Whether the sqlite `UPDATE` of the registered hash of a store path
        completes without `sqlite3.OperationalError`. */
    updateHash: string -> bool
  )
}
