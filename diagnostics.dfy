/**
 * The messages the alias tool writes to standard output and standard error,
 * kept abstract: each carries the values the tool formats into its text.
 */
module Diagnostics {

  datatype Message =
    /** `cannot process alias <alias> -> <target>`: the target token is not hex. */
    | CannotProcess(alias: string, target: string)
    /** `<filedir> is not a directory` */
    | NotADirectory(filedir: string)
    /** `target <target> for <alias> does not exist`, both written by `seq_to_str`. */
    | TargetMissing(targetSeq: seq<nat>, aliasSeq: seq<nat>)
    /** `alias <alias> exists`, written by `seq_to_str`. */
    | AliasExists(existing: seq<nat>)
    /** `replacing <count> files` */
    | Replacing(count: nat)
    /** A dry-run line `[replace ]<link> -> <target>`. */
    | Preview(replacing: bool, link: string, target: string)
    /** `failed to create <link> -> <target>` */
    | LinkFailed(link: string, target: string)
    /** `created <count> symlinks` */
    | Created(count: nat)
}
