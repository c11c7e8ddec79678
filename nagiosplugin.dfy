/** The one piece of the monitoring-plugin library the probes build themselves. */
module NagiosPlugin {

  /**
   * A measurement handed to the library: its label, its value and the name
   * of the context (the warning/critical ranges) that will judge it.
   */
  datatype Metric<V> = Metric(name: string, value: V, context: string)
}
