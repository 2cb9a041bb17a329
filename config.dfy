/**
 * Config: the application's settings. Three directory paths, the interval between sync
 * sessions in seconds and the archiving switch; the last two are nullable (`int?`, `bool?`).
 */
module Configs {
  import opened Wrappers

  const MinInt32 := -0x8000_0000
  const MaxInt32 := 0x7FFF_FFFF

  /** C#'s `int`. */
  type Int32 = x: int | MinInt32 <= x <= MaxInt32

  datatype Config = Config(sourceDirectoryPath: string, replicaDirectoryPath: string, logsDirectory: string,
                           syncIntervalSeconds: Option<Int32>, archiveEnabled: Option<bool>)

  /** `GetDefaultConfig`: no paths yet, a 9000-second interval and archiving on. */
  function GetDefaultConfig(): Config {
    Config("", "", "", Some(9000), Some(true))
  }

  /** `GetEmptyConfig`: no paths and neither the interval nor the archiving switch set. */
  function GetEmptyConfig(): Config {
    Config("", "", "", None, None)
  }

  /** `Clone`: a config with the same five settings. */
  function Clone(config: Config): (r: Config)
    ensures r == config
  {
    Config(config.sourceDirectoryPath, config.replicaDirectoryPath, config.logsDirectory,
           config.syncIntervalSeconds, config.archiveEnabled)
  }
}
