/** What the shell learns from its surroundings: the home directory, the
    file system and the directory listings. Each query is a parameter of the
    model; relative paths are resolved against the working directory `cwd`
    that is passed with them. */
module Host {
  import opened Options

  datatype FileType = Directory | NotDirectory

  /** One entry of a directory listing. `name` is `None` when the entry's
      name is not valid Unicode; `fileType` is `None` when its type could
      not be read. */
  datatype Entry = Entry(name: Option<string>, fileType: Option<FileType>)

  datatype World = World(
    /** `dirs::home_dir()`, already converted to a string */
    home: Option<string>,
    /** the lines of the file at a path, or `None` when it cannot be opened */
    readLines: (string, string) -> Option<seq<string>>,
    /** `Path::exists` */
    pathExists: (string, string) -> bool,
    /** `env::set_current_dir`: the new working directory, or `None` on failure */
    changeDir: (string, string) -> Option<string>,
    /** `Path::is_dir` */
    isDir: (string, string) -> bool,
    /** `Path::parent`, as a string */
    parent: string -> Option<string>,
    /** `Path::file_name`, when it exists and is valid Unicode */
    fileName: string -> Option<string>,
    /** `Path::read_dir`: the readable entries, or `None` when the directory
        cannot be read */
    readDir: (string, string) -> Option<seq<Entry>>)
}
