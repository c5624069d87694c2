/** The settings `app.py` reads from `config.py`: the output directory and each service's file. */
module Config {
  const OutputDir: string := "codes"

  /** `SERVICES[key]["output_file"]`. */
  const ServiceOutputFiles: map<string, string> := map[
    "tv" := "tv_plus_codes.txt",
    "music" := "music_codes.txt",
    "arcade" := "arcade_codes.txt",
    "fitness" := "fitness_codes.txt",
    "news" := "news_codes.txt"
  ]

  /** `os.path.join(OUTPUT_DIR, SERVICES[key]["output_file"])`. */
  function OutputPath(key: string): string
    requires key in ServiceOutputFiles
  {
    OutputDir + "/" + ServiceOutputFiles[key]
  }
}
