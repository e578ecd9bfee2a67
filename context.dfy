/**
 The server context of src/server_context.hpp: the command-line settings,
 fixed at construction, of which the handlers read the served directory.
 */
module Context {

  /** t_server_ctx. */
  datatype ServerCtxKey = SC_DIRECTORY | SC_UNKNOWN

  /** ServerContext: the map is stored as given and never changed. */
  datatype ServerContext = ServerContext(args: map<ServerCtxKey, string>) {
    /** GetDirectory: the SC_DIRECTORY setting, or "" without one. */
    function GetDirectory(): string {
      if SC_DIRECTORY in args then args[SC_DIRECTORY] else ""
    }
  }

  /** The default-constructed context. */
  const DefaultContext: ServerContext := ServerContext(map[])

  /** A set directory is returned verbatim; without one, and by default, the directory is "";
      other settings do not affect it. */
  lemma DirectoryLookup(args: map<ServerCtxKey, string>, dir: string, other: string)
    ensures ServerContext(args[SC_DIRECTORY := dir]).GetDirectory() == dir
    ensures ServerContext(args - {SC_DIRECTORY}).GetDirectory() == ""
    ensures DefaultContext.GetDirectory() == ""
    ensures ServerContext(args[SC_UNKNOWN := other]).GetDirectory() == ServerContext(args).GetDirectory()
  {
  }

  /** An explicitly empty directory cannot be told apart from an absent one. */
  lemma EmptyDirectoryLikeAbsent(args: map<ServerCtxKey, string>)
    ensures ServerContext(args[SC_DIRECTORY := ""]).GetDirectory() == ServerContext(args - {SC_DIRECTORY}).GetDirectory()
  {
  }
}
