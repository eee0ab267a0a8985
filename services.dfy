/** The language-model services both generation stages look for. */
module Services {
  import opened Common
  import opened Catalog

  /** A service, under its key, and the environment variable holding its
      API key (none for a local server). */
  datatype Service = Service(key: string, envVar: Option<string>)

  /** `service.envVar && process.env[service.envVar]`; `env` is the process
      environment. */
  predicate HasKey(s: Service, env: string -> Option<string>) {
    Truthy(s.envVar) && Truthy(env(s.envVar.value))
  }
}
